/** Recovery of the newest snapshot from a legacy cumulative cron stream (shared/cron-types.ts). */
module CronChain {
  import opened Results
  import opened Text

  const MIN_PREFIX_SNAPSHOTS := 4
  const MIN_GROWTH_STEPS := 4
  const MIN_DISCARDED_CHARS := 32
  const MIN_FINAL_CHARS := 16

  datatype Score = Score(snapshots: nat, growthSteps: nat)

  predicate Better(a: Score, b: Score) {
    a.snapshots > b.snapshots || (a.snapshots == b.snapshots && a.growthSteps > b.growthSteps)
  }

  // ---------------------------------------------------------------- what a cumulative stream is

  /** How often a snapshot is strictly longer than the one before it. */
  function Growth(snaps: seq<string>): nat {
    if |snaps| < 2 then 0
    else (if |snaps[0]| < |snaps[1]| then 1 else 0) + Growth(snaps[1..])
  }

  /** `snaps` are non-empty prefixes of `final`, each at least as long as the one before. */
  ghost predicate Cumulative(snaps: seq<string>, final: string) {
    && (forall i :: 0 <= i < |snaps| ==> snaps[i] != "" && snaps[i] <= final)
    && (forall i :: 0 < i < |snaps| ==> |snaps[i - 1]| <= |snaps[i]|)
  }

  /** `text` is the newline-joined stream of the snapshots before `final`; the first one is at
      least `previous` long. */
  ghost predicate IsStream(text: string, previous: int, final: string, snaps: seq<string>) {
    |snaps| > 0 && |snaps[0]| >= previous && Cumulative(snaps, final) && Join(snaps, "\n") == text
  }

  ghost function StreamScore(previous: int, final: string, snaps: seq<string>): Score
    requires |snaps| > 0
  {
    Score(|snaps|, (if 0 <= previous < |snaps[0]| then 1 else 0) + Growth(snaps + [final]))
  }

  /** `best` is the largest score of any way to read `text` as such a stream; None if there is no way. */
  ghost predicate IsBest(text: string, previous: int, final: string, best: Option<Score>) {
    match best
    case None => forall snaps :: !IsStream(text, previous, final, snaps)
    case Some(b) =>
      && (exists snaps :: IsStream(text, previous, final, snaps) && StreamScore(previous, final, snaps) == b)
      && (forall snaps :: IsStream(text, previous, final, snaps) ==> !Better(StreamScore(previous, final, snaps), b))
  }

  lemma BestIsUnique(text: string, previous: int, final: string, a: Option<Score>, b: Option<Score>)
    requires IsBest(text, previous, final, a) && IsBest(text, previous, final, b)
    ensures a == b
  {
  }

  // ---------------------------------------------------------------- streams by their first snapshot

  /** Streams whose first snapshot is shorter than `limit`. */
  ghost predicate IsBestBelow(text: string, previous: int, final: string, limit: nat, best: Option<Score>) {
    match best
    case None => forall snaps :: IsStream(text, previous, final, snaps) ==> |snaps[0]| >= limit
    case Some(b) =>
      && (exists snaps :: IsStream(text, previous, final, snaps) && |snaps[0]| < limit
            && StreamScore(previous, final, snaps) == b)
      && (forall snaps :: IsStream(text, previous, final, snaps) && |snaps[0]| < limit ==>
            !Better(StreamScore(previous, final, snaps), b))
  }

  /** The first snapshot of a stream is cut off at a newline, or is the whole text. */
  lemma StreamHead(text: string, previous: int, final: string, snaps: seq<string>)
    requires IsStream(text, previous, final, snaps)
    ensures var n := |snaps[0]|; n <= |text| && snaps[0] == text[..n] && n > 0 && snaps[0] <= final
    ensures |snaps| == 1 <==> |snaps[0]| == |text|
    ensures |snaps| > 1 ==>
              var n := |snaps[0]|;
              n < |text| && text[n] == '\n' && IsStream(text[n + 1..], n, final, snaps[1..])
    ensures |snaps| > 1 ==>
              var tail := StreamScore(|snaps[0]|, final, snaps[1..]);
              StreamScore(previous, final, snaps) == Extend(tail, previous, |snaps[0]|)
  {
    if |snaps| > 1 {
      JoinStep(snaps, "\n");
      var n := |snaps[0]|;
      assert text == snaps[0] + "\n" + Join(snaps[1..], "\n");
      assert Cumulative(snaps[1..], final);
      assert |snaps[1]| >= n;
      assert (snaps + [final])[1..] == snaps[1..] + [final];
    }
  }

  /** The score of a stream with one more snapshot of length `n` in front. */
  function Extend(tail: Score, previous: int, n: int): Score {
    Score(tail.snapshots + 1, tail.growthSteps + (if 0 <= previous < n then 1 else 0))
  }

  /** A fitting first snapshot in front of a stream gives a stream. */
  lemma StreamCons(text: string, previous: int, final: string, n: nat, rest: seq<string>)
    requires 0 < n < |text| && text[n] == '\n' && n >= previous && text[..n] <= final
    requires IsStream(text[n + 1..], n, final, rest)
    ensures IsStream(text, previous, final, [text[..n]] + rest)
    ensures StreamScore(previous, final, [text[..n]] + rest) == Extend(StreamScore(n, final, rest), previous, n)
  {
    var snaps := [text[..n]] + rest;
    assert snaps[1..] == rest;
    JoinStep(snaps, "\n");
    assert text == text[..n] + "\n" + text[n + 1..];
    assert forall i :: 0 < i < |snaps| ==> snaps[i] == rest[i - 1];
    assert (snaps + [final])[1..] == rest + [final];
  }

  lemma SingleStream(text: string, previous: int, final: string)
    requires text != "" && |text| >= previous && text <= final
    ensures IsStream(text, previous, final, [text])
    ensures StreamScore(previous, final, [text]) ==
            Extend(Score(0, if |text| < |final| then 1 else 0), previous, |text|)
  {
    var all := [text] + [final];
    assert all[1..] == [final] && Growth([final]) == 0 && |all| == 2;
    assert Growth(all) == (if |text| < |final| then 1 else 0);
  }

  predicate Fits(snapshot: string, previous: int, final: string) {
    |snapshot| > 0 && |snapshot| >= previous && |snapshot| <= |final| && snapshot <= final
  }

  /** The best score over streams whose first snapshot has length exactly `n`. */
  ghost predicate IsBestAt(text: string, previous: int, final: string, n: nat, best: Option<Score>) {
    match best
    case None => forall snaps :: IsStream(text, previous, final, snaps) ==> |snaps[0]| != n
    case Some(b) =>
      && (exists snaps :: IsStream(text, previous, final, snaps) && |snaps[0]| == n
            && StreamScore(previous, final, snaps) == b)
      && (forall snaps :: IsStream(text, previous, final, snaps) && |snaps[0]| == n ==>
            !Better(StreamScore(previous, final, snaps), b))
  }

  lemma BestWhole(text: string, previous: int, final: string)
    requires Fits(text, previous, final)
    ensures IsBestAt(text, previous, final, |text|,
            Some(Extend(Score(0, if |text| < |final| then 1 else 0), previous, |text|)))
  {
    SingleStream(text, previous, final);
    assert |[text][0]| == |text|;
    forall snaps | IsStream(text, previous, final, snaps) && |snaps[0]| == |text|
      ensures snaps == [text]
    {
      StreamHead(text, previous, final, snaps);
    }
  }

  lemma BestWithTail(text: string, previous: int, final: string, n: nat, tail: Option<Score>)
    requires n < |text| && text[n] == '\n' && Fits(text[..n], previous, final)
    requires IsBest(text[n + 1..], n, final, tail)
    ensures IsBestAt(text, previous, final, n, if tail.None? then None else Some(Extend(tail.value, previous, n)))
  {
    forall snaps | IsStream(text, previous, final, snaps) && |snaps[0]| == n
      ensures tail.Some?
      ensures tail.Some? ==> !Better(StreamScore(previous, final, snaps), Extend(tail.value, previous, n))
    {
      StreamHead(text, previous, final, snaps);
      assert IsStream(text[n + 1..], n, final, snaps[1..]);
    }
    if tail.Some? {
      var rest :| IsStream(text[n + 1..], n, final, rest) && StreamScore(n, final, rest) == tail.value;
      StreamCons(text, previous, final, n, rest);
      assert ([text[..n]] + rest)[0] == text[..n];
    }
  }

  lemma BestNoFit(text: string, previous: int, final: string, n: nat)
    requires n <= |text| && !Fits(text[..n], previous, final)
    ensures IsBestAt(text, previous, final, n, None)
  {
    forall snaps | IsStream(text, previous, final, snaps)
      ensures |snaps[0]| != n
    {
      StreamHead(text, previous, final, snaps);
    }
  }

  /** Keeps the better of two scores, the first when they are equal. */
  function Keep(best: Option<Score>, score: Option<Score>): Option<Score> {
    if score.Some? && (best.None? || Better(score.value, best.value)) then score else best
  }

  /** Taking the next possible end of the first snapshot into account. */
  lemma BestBelowStep(text: string, previous: int, final: string, n: nat, next: nat, best: Option<Score>,
                      at: Option<Score>)
    requires IsBestBelow(text, previous, final, n, best) && IsBestAt(text, previous, final, n, at)
    requires n < next && forall k :: n < k < next && k < |text| ==> text[k] != '\n'
    requires n < |text| ==> next <= |text|
    ensures IsBestBelow(text, previous, final, next, Keep(best, at))
  {
    hide StreamScore;
    forall snaps | IsStream(text, previous, final, snaps) && |snaps[0]| < next
      ensures |snaps[0]| <= n
    {
      StreamHead(text, previous, final, snaps);
    }
    var r := Keep(best, at);
    if best.Some? {
      var snaps :| IsStream(text, previous, final, snaps) && |snaps[0]| < n
          && StreamScore(previous, final, snaps) == best.value;
      assert |snaps[0]| < next;
    }
    if at.Some? {
      var snaps :| IsStream(text, previous, final, snaps) && |snaps[0]| == n
          && StreamScore(previous, final, snaps) == at.value;
      assert |snaps[0]| < next;
    }
  }

  // ---------------------------------------------------------------- the memoised search

  /** One search: the text before the separator at `prefixEnd` against the text after it. */
  class ChainSearch {
    const source: string
    const prefixEnd: nat
    const final: string
    var memo: map<(nat, int), Option<Score>>

    ghost predicate Valid()
      reads this
    {
      && prefixEnd < |source| && source[prefixEnd] == '\n'
      && forall k :: k in memo ==> k.0 <= prefixEnd && IsBest(source[k.0..prefixEnd], k.1, final, memo[k])
    }

    constructor (source: string, prefixEnd: nat, final: string)
      requires prefixEnd < |source| && source[prefixEnd] == '\n'
      ensures Valid() && this.source == source && this.prefixEnd == prefixEnd && this.final == final
    {
      this.source, this.prefixEnd, this.final, this.memo := source, prefixEnd, final, map[];
    }

    /** The best way to read the text from `start` on with a first snapshot that ends at `end`. */
    method ScoreAt(start: nat, previous: int, end: nat) returns (score: Option<Score>)
      requires Valid() && start <= end <= prefixEnd && source[end] == '\n'
      modifies this
      ensures Valid()
      ensures IsBestAt(source[start..prefixEnd], previous, final, end - start, score)
      decreases |source| - start, 0
    {
      hide IsBest, IsBestAt, Better;
      ghost var text := source[start..prefixEnd];
      var snapshot := source[start..end];
      var length := |snapshot|;
      assert snapshot == text[..length];
      score := None;
      if Fits(snapshot, previous, final) {
        var tail := Some(Score(0, if length < |final| then 1 else 0));
        if end != prefixEnd {
          tail := Visit(end + 1, length);
          assert text[length + 1..] == source[end + 1..prefixEnd];
          BestWithTail(text, previous, final, length, tail);
        } else {
          BestWhole(text, previous, final);
        }
        if tail.Some? {
          score := Some(Extend(tail.value, previous, length));
        }
      } else {
        BestNoFit(text, previous, final, length);
      }
    }

    /** The best way to read the text from `start` on, after a snapshot of length `previous`. */
    method Visit(start: nat, previous: int) returns (best: Option<Score>)
      requires Valid() && start <= prefixEnd
      modifies this
      ensures Valid()
      ensures IsBest(source[start..prefixEnd], previous, final, best)
      decreases |source| - start, 1
    {
      hide IsBest, IsBestBelow, IsBestAt, Better;
      if (start, previous) in memo {
        return memo[(start, previous)];
      }
      best := None;
      var end := IndexOf(source, "\n", start);
      ScanStart(source, start, prefixEnd, previous, final);
      while end >= 0 && end <= prefixEnd
        invariant Valid()
        invariant 0 <= end <= prefixEnd ==> start <= end && source[end] == '\n'
        invariant IsBestBelow(source[start..prefixEnd], previous, final, Limit(start, prefixEnd, end), best)
        decreases if end >= 0 then |source| - end else 0
      {
        var score := ScoreAt(start, previous, end);
        ScanStep(source, start, prefixEnd, previous, final, end, best, score);
        best := Keep(best, score);
        end := IndexOf(source, "\n", end + 1);
      }
      BestBelowAll(source[start..prefixEnd], previous, final, best);
      memo := memo[(start, previous) := best];
    }
  }

  /** First snapshots considered so far are shorter than this. */
  function Limit(start: nat, prefixEnd: nat, end: int): nat
    requires start <= prefixEnd
    requires 0 <= end <= prefixEnd ==> start <= end
  {
    if 0 <= end <= prefixEnd then end - start else prefixEnd - start + 1
  }

  lemma ScanStart(source: string, start: nat, prefixEnd: nat, previous: int, final: string)
    requires start <= prefixEnd < |source| && source[prefixEnd] == '\n'
    ensures var end := IndexOf(source, "\n", start);
            start <= end <= prefixEnd && source[end] == '\n'
            && IsBestBelow(source[start..prefixEnd], previous, final, Limit(start, prefixEnd, end), None)
  {
    var end := IndexOf(source, "\n", start);
    NewlineAt(source, start, end);
    BestBelowStart(source[start..prefixEnd], previous, final, end - start);
  }

  lemma ScanStep(source: string, start: nat, prefixEnd: nat, previous: int, final: string, end: nat,
                 best: Option<Score>, score: Option<Score>)
    requires start <= end <= prefixEnd < |source| && source[prefixEnd] == '\n'
    requires IsBestBelow(source[start..prefixEnd], previous, final, end - start, best)
    requires IsBestAt(source[start..prefixEnd], previous, final, end - start, score)
    ensures var next := IndexOf(source, "\n", end + 1);
            (next == -1 || (end < next < |source| && source[next] == '\n'))
            && IsBestBelow(source[start..prefixEnd], previous, final, Limit(start, prefixEnd, next), Keep(best, score))
  {
    hide IsBestBelow, IsBestAt, Keep;
    var next := IndexOf(source, "\n", end + 1);
    NewlineAt(source, end + 1, next);
    BestBelowStep(source[start..prefixEnd], previous, final, end - start, Limit(start, prefixEnd, next), best, score);
  }

  lemma NewlineAt(s: string, from: nat, end: int)
    requires end == IndexOf(s, "\n", from)
    ensures end == -1 ==> forall k :: from <= k < |s| ==> s[k] != '\n'
    ensures end != -1 ==> from <= end < |s| && s[end] == '\n' && forall k :: from <= k < end ==> s[k] != '\n'
  {
    forall k | from <= k < |s| && s[k] == '\n'
      ensures OccursAt(s, "\n", k)
    {
    }
    if end != -1 {
      assert OccursAt(s, "\n", end);
      assert s[end..end + 1][0] == s[end];
    }
  }

  lemma BestBelowStart(text: string, previous: int, final: string, limit: int)
    requires 0 <= limit <= |text| && forall k :: 0 <= k < limit ==> text[k] != '\n'
    ensures IsBestBelow(text, previous, final, limit, None)
  {
    forall snaps | IsStream(text, previous, final, snaps)
      ensures |snaps[0]| >= limit
    {
      StreamHead(text, previous, final, snaps);
    }
  }

  lemma BestBelowAll(text: string, previous: int, final: string, best: Option<Score>)
    requires IsBestBelow(text, previous, final, |text| + 1, best)
    ensures IsBest(text, previous, final, best)
  {
    forall snaps | IsStream(text, previous, final, snaps)
      ensures |snaps[0]| < |text| + 1
    {
      StreamHead(text, previous, final, snaps);
    }
  }

  /** `findLegacyCronSnapshotChain`: the best score over all ways to read the text before the
      separator as a cumulative stream of the text after it. */
  method FindChain(source: string, prefixEnd: nat, final: string) returns (best: Option<Score>)
    requires prefixEnd < |source| && source[prefixEnd] == '\n'
    ensures IsBest(source[..prefixEnd], -1, final, best)
  {
    var search := new ChainSearch(source, prefixEnd, final);
    best := search.Visit(0, -1);
  }

  // ---------------------------------------------------------------- normalisation

  /** `detail.replace(/\r\n/g, '\n')`. */
  function CrlfToLf(s: string): string {
    if |s| < 2 then s
    else if s[0] == '\r' && s[1] == '\n' then "\n" + CrlfToLf(s[2..])
    else [s[0]] + CrlfToLf(s[1..])
  }

  lemma {:induction false} NoNewlineNoCrlf(s: string)
    requires '\n' !in s
    ensures CrlfToLf(s) == s
  {
    if |s| >= 2 {
      NoNewlineNoCrlf(s[1..]);
      assert s[1] in s;
      assert s == [s[0]] + s[1..];
    }
  }

  lemma {:induction false} NoReturnNoCrlf(s: string)
    requires '\r' !in s
    ensures CrlfToLf(s) == s
  {
    if |s| >= 2 {
      NoReturnNoCrlf(s[1..]);
      assert s[0] in s;
      assert s == [s[0]] + s[1..];
    }
  }

  /** What the newline normalisation does, line by line. */
  lemma {:induction false} CrlfByLine(s: string)
    ensures LosesReturns(Split(s, '\n'), Split(CrlfToLf(s), '\n'))
    decreases |s|
  {
    if |s| >= 2 {
      var crlf := s[0] == '\r' && s[1] == '\n';
      var t := if crlf then s[2..] else s[1..];
      CrlfByLine(t);
      var before, after := Split(t, '\n'), Split(CrlfToLf(t), '\n');
      hide LosesReturns, Split;
      if crlf {
        TwoSplits(s, CrlfToLf(t));
        LineInFront("\r", "", before, after);
      } else {
        SplitStep(s, before, '\n');
        SplitOnce(s[0], CrlfToLf(t));
        if s[0] == '\n' {
          LineInFront("", "", before, after);
        } else {
          StartsBlank(t);
          CharInFront(s[0], before, after);
        }
      }
    }
  }

  lemma SplitOnce(c: char, t: string)
    ensures var r := Split(t, '\n');
      Split([c] + t, '\n') == if c == '\n' then [""] + r else [[c] + r[0]] + r[1..]
  {
    assert ([c] + t)[1..] == t;
  }

  lemma TwoSplits(s: string, t: string)
    requires |s| >= 2 && s[0] == '\r' && s[1] == '\n'
    ensures Split(s, '\n') == ["\r"] + Split(s[2..], '\n') && Split("\n" + t, '\n') == [""] + Split(t, '\n')
  {
    assert s == "\r" + ['\n'] + s[2..] && "\n" + t == "" + ['\n'] + t;
    SplitCons("\r", s[2..], '\n');
    SplitCons("", t, '\n');
  }

  lemma StartsBlank(t: string)
    requires t != ""
    ensures var lines := Split(t, '\n'); |lines| > 1 && lines[0] == "" ==> t[0] == '\n'
  {
  }

  /** One more line in front. */
  lemma LineInFront(x: string, y: string, before: seq<string>, after: seq<string>)
    requires LosesReturns(before, after) && before != [] && y == "" && (x == "" || x == "\r")
    ensures LosesReturns([x] + before, [y] + after)
  {
    assert "\r" == "" + "\r";
    assert forall i :: 0 < i <= |before| ==> ([x] + before)[i] == before[i - 1] && ([y] + after)[i] == after[i - 1];
  }

  /** One more character in front of the first line. */
  lemma CharInFront(c: char, before: seq<string>, after: seq<string>)
    requires LosesReturns(before, after) && before != []
    requires c == '\r' && before[0] == "" ==> |before| == 1
    ensures LosesReturns([[c] + before[0]] + before[1..], [[c] + after[0]] + after[1..])
  {
    var x, y := [c] + before[0], [c] + after[0];
    var b, a := [x] + before[1..], [y] + after[1..];
    assert forall i :: 0 < i < |before| ==> b[i] == before[i] && a[i] == after[i];
    if before[0] != "" {
      assert x[|x| - 1] == before[0][|before[0]| - 1];
      assert [c] + (after[0] + "\r") == y + "\r";
    }
  }

  /** Lines joined with returns and newlines are normalised to the lines joined with newlines. */
  lemma CrlfLines(lines: seq<string>)
    requires lines != [] && SingleLines(lines)
    ensures CrlfToLf(Join(lines, "\r\n")) == Join(lines, "\n")
  {
    var s := Join(lines, "\r\n");
    CrlfPieces(lines);
    CrlfByLine(s);
    JoinOfSplit(CrlfToLf(s), '\n');
    var after := Split(CrlfToLf(s), '\n');
    assert "\n" == ['\n'];
    hide Split, Join, CrlfToLf;
    forall i | 0 <= i < |lines|
      ensures after[i] == lines[i]
    {
      if i < |lines| - 1 {
        var line := lines[i] + "\r";
        assert line[|line| - 1] == '\r' && line[..|lines[i]|] == lines[i];
        assert (after[i] + "\r")[..|lines[i]|] == after[i];
      }
    }
    assert after == lines;
  }

  /** What splitting at newlines makes of such lines. */
  lemma {:induction false} CrlfPieces(lines: seq<string>)
    requires lines != [] && SingleLines(lines)
    ensures var pieces := Split(Join(lines, "\r\n"), '\n');
      |pieces| == |lines| && forall i :: 0 <= i < |lines| ==>
        pieces[i] == if i < |lines| - 1 then lines[i] + "\r" else lines[i]
  {
    var rest := lines[1..];
    if rest == [] {
      SplitCons(lines[0], "", '\n');
    } else {
      assert forall i :: 0 <= i < |rest| ==> rest[i] == lines[i + 1];
      CrlfPieces(rest);
      var tail := Join(rest, "\r\n");
      JoinStep(lines, "\r\n");
      assert lines[0] + "\r\n" + tail == (lines[0] + "\r") + ['\n'] + tail;
      SplitCons(lines[0] + "\r", tail, '\n');
    }
  }

  /** Cutting at `separator` leaves a final snapshot preceded by a convincing stream with this score. */
  ghost predicate Recovers(source: string, separator: nat, score: Score) {
    && separator + 1 < |source| && source[separator] == '\n'
    && IsBest(source[..separator], -1, source[separator + 1..], Some(score))
    && score.snapshots >= MIN_PREFIX_SNAPSHOTS && score.growthSteps >= MIN_GROWTH_STEPS
    && separator >= MIN_DISCARDED_CHARS && |source| - separator - 1 >= MIN_FINAL_CHARS
  }

  /** No other convincing cut beats this one: not by score, and not by an equally good longer snapshot. */
  ghost predicate BestCut(source: string, separator: nat, score: Score, limit: nat) {
    && Recovers(source, separator, score)
    && forall k: nat, other :: k < limit && Recovers(source, k, other) ==>
         !Better(other, score) && (other == score ==> separator <= k)
  }

  /** `best` is the best convincing cut below `limit`, if there is one. */
  ghost predicate CutsBelow(source: string, limit: nat, best: Option<Cut>) {
    match best
    case None => forall k: nat, score :: k < limit ==> !Recovers(source, k, score)
    case Some(cut) => cut.separator < limit && BestCut(source, cut.separator, cut.score, limit)
  }

  datatype Cut = Cut(separator: nat, score: Score)

  /** The conditions under which a cut replaces the best one so far. */
  predicate Replaces(best: Option<Cut>, separator: nat, score: Option<Score>, finalLength: nat, sourceLength: nat) {
    && score.Some?
    && score.value.snapshots >= MIN_PREFIX_SNAPSHOTS && score.value.growthSteps >= MIN_GROWTH_STEPS
    && separator >= MIN_DISCARDED_CHARS && finalLength >= MIN_FINAL_CHARS
    && (best.None? || Better(score.value, best.value.score)
        || (score.value == best.value.score && finalLength > sourceLength - best.value.separator - 1))
  }

  lemma CutStep(source: string, separator: nat, next: nat, best: Option<Cut>, score: Option<Score>)
    requires separator + 1 < |source| && source[separator] == '\n' && separator < next
    requires CutsBelow(source, separator, best)
    requires IsBest(source[..separator], -1, source[separator + 1..], score)
    requires forall k :: separator < k < next && k < |source| ==> source[k] != '\n'
    ensures CutsBelow(source, next, if Replaces(best, separator, score, |source| - separator - 1, |source|)
                                    then Some(Cut(separator, score.value)) else best)
  {
    forall k: nat, other | k < next && Recovers(source, k, other)
      ensures k < separator || (k == separator && score == Some(other))
    {
      if k == separator {
        BestIsUnique(source[..k], -1, source[separator + 1..], score, Some(other));
      }
    }
    hide IsBest;
  }

  /** The best convincing cut of the whole text. */
  method FindCut(source: string) returns (best: Option<Cut>)
    ensures CutsBelow(source, |source|, best)
  {
    best := None;
    var separator := IndexOf(source, "\n", 0);
    NewlineAt(source, 0, separator);
    FirstCut(source, if separator < 0 then |source| else separator);
    while separator >= 0 && separator < |source| - 1
      invariant -1 <= separator < |source| || separator == -1
      invariant separator >= 0 ==> source[separator] == '\n'
      invariant CutsBelow(source, if separator < 0 then |source| else separator, best)
      decreases if separator >= 0 then |source| - separator else 0
    {
      var final := source[separator + 1..];
      var score := FindChain(source, separator, final);
      var next := IndexOf(source, "\n", separator + 1);
      NewlineAt(source, separator + 1, next);
      CutStep(source, separator, if next < 0 then |source| else next, best, score);
      if Replaces(best, separator, score, |final|, |source|) {
        best := Some(Cut(separator, score.value));
      }
      separator := next;
    }
    LastCut(source, if separator < 0 then |source| else separator, best);
  }

  lemma FirstCut(source: string, limit: nat)
    requires limit <= |source| && forall k :: 0 <= k < limit ==> source[k] != '\n'
    ensures CutsBelow(source, limit, None)
  {
  }

  lemma LastCut(source: string, limit: nat, best: Option<Cut>)
    requires limit >= |source| - 1 && CutsBelow(source, limit, best) && limit <= |source|
    ensures CutsBelow(source, |source|, best)
  {
  }

  /** `normalizeCronExecutionDetail`: the text after the best convincing cut of the newline-normalised
      detail, or the detail itself, byte for byte, when there is none. */
  method NormalizeDetail(detail: string) returns (r: string)
    ensures exists cut :: CutsBelow(CrlfToLf(detail), |CrlfToLf(detail)|, cut)
                          && r == if cut.Some? then CrlfToLf(detail)[cut.value.separator + 1..] else detail
  {
    var source := CrlfToLf(detail);
    var cut: Option<Cut> := None;
    if '\n' !in detail {
      NoNewlineNoCrlf(detail);
      assert forall k: nat :: k < |source| ==> source[k] in detail;
      FirstCut(source, |source|);
    } else {
      cut := FindCut(source);
    }
    r := if cut.Some? then source[cut.value.separator + 1..] else detail;
  }

  lemma {:induction false} StreamBounds(snaps: seq<string>, final: string)
    requires |snaps| > 0 && forall i :: 0 <= i < |snaps| ==> snaps[i] != ""
    ensures |snaps| <= |Join(snaps, "\n")|
    ensures Growth(snaps + [final]) <= |snaps|
  {
    var all := snaps + [final];
    assert all[1..] == snaps[1..] + [final];
    if |snaps| > 1 {
      StreamBounds(snaps[1..], final);
    }
  }

  /** If the text can be read as a stream at all, there is a best way, at least as good as this one. */
  lemma BestExists(text: string, final: string, snaps: seq<string>) returns (score: Score)
    requires IsStream(text, -1, final, snaps)
    ensures IsBest(text, -1, final, Some(score))
    ensures !Better(StreamScore(-1, final, snaps), score)
    decreases |text| - |snaps|, |snaps| - Growth(snaps + [final])
  {
    score := StreamScore(-1, final, snaps);
    StreamBounds(snaps, final);
    if other :| IsStream(text, -1, final, other) && Better(StreamScore(-1, final, other), score) {
      StreamBounds(other, final);
      score := BestExists(text, final, other);
    }
  }

  /** What a rewrite drops: a newline-joined stream of at least four non-empty prefixes of what is
      kept, none shorter than the one before, growing at least four times. */
  lemma RewriteDropsSnapshots(source: string, separator: nat, score: Score) returns (snaps: seq<string>)
    requires Recovers(source, separator, score)
    ensures source == Join(snaps + [source[separator + 1..]], "\n")
    ensures Cumulative(snaps, source[separator + 1..])
    ensures |snaps| == score.snapshots >= 4 && Growth(snaps + [source[separator + 1..]]) == score.growthSteps >= 4
    ensures separator >= 32 && |source| - separator - 1 >= 16
  {
    var final := source[separator + 1..];
    snaps :| IsStream(source[..separator], -1, final, snaps) && StreamScore(-1, final, snaps) == score;
    JoinAppend(snaps, [final], "\n");
    assert source == source[..separator] + "\n" + final;
  }

  /** A way to read `text` before `final` that no other way beats in the number of snapshots. */
  ghost predicate IsLongestReading(text: string, final: string, snaps: seq<string>) {
    IsStream(text, -1, final, snaps) && forall other :: IsStream(text, -1, final, other) ==> |other| <= |snaps|
  }

  /** When a cut is convincing, said of the text alone: both sides are long enough, and some reading with the most
      snapshots has at least four of them and grows at least four times. */
  lemma RecoveredIff(source: string, separator: nat)
    requires separator + 1 < |source| && source[separator] == '\n'
    ensures var text, final := source[..separator], source[separator + 1..];
      (exists score :: Recovers(source, separator, score)) <==>
        && separator >= MIN_DISCARDED_CHARS && |final| >= MIN_FINAL_CHARS
        && exists snaps :: IsLongestReading(text, final, snaps)
                           && |snaps| >= MIN_PREFIX_SNAPSHOTS && Growth(snaps + [final]) >= MIN_GROWTH_STEPS
  {
    var text, final := source[..separator], source[separator + 1..];
    if score :| Recovers(source, separator, score) {
      var snaps :| IsStream(text, -1, final, snaps) && StreamScore(-1, final, snaps) == score;
      assert IsLongestReading(text, final, snaps);
    }
    if snaps :| IsLongestReading(text, final, snaps)
                && |snaps| >= MIN_PREFIX_SNAPSHOTS && Growth(snaps + [final]) >= MIN_GROWTH_STEPS {
      var best := BestExists(text, final, snaps);
      var other :| IsStream(text, -1, final, other) && StreamScore(-1, final, other) == best;
      if separator >= MIN_DISCARDED_CHARS && |final| >= MIN_FINAL_CHARS {
        assert Recovers(source, separator, best);
      }
    }
  }

  // ---------------------------------------------------------------- streams of single lines

  /** Text is never read as more snapshots than it has lines, and as that many only line by line. */
  lemma {:induction false} LinesBound(snaps: seq<string>)
    requires |snaps| > 0
    ensures |snaps| <= |Split(Join(snaps, "\n"), '\n')|
    ensures |snaps| == |Split(Join(snaps, "\n"), '\n')| ==> Split(Join(snaps, "\n"), '\n') == snaps
  {
    var s := snaps[0];
    OneLine(s);
    if |snaps| > 1 {
      var rest := snaps[1..];
      LinesBound(rest);
      JoinStep(snaps, "\n");
      SplitConcat(s, Join(rest, "\n"), '\n');
      assert snaps == [s] + rest;
      hide *;
      assert s + "\n" + Join(rest, "\n") == s + ['\n'] + Join(rest, "\n");
    }
  }

  lemma OneLine(s: string)
    ensures |Split(s, '\n')| == 1 ==> Split(s, '\n') == [s]
  {
    JoinOfSplit(s, '\n');
    hide Split;
    if |Split(s, '\n')| == 1 {
      assert Join(Split(s, '\n'), "\n") == Split(s, '\n')[0];
    }
  }

  ghost predicate SingleLines(snaps: seq<string>) {
    forall i :: 0 <= i < |snaps| ==> '\n' !in snaps[i]
  }

  /** A stream of single-line snapshots is best read line by line. */
  lemma LineStreamIsBest(snaps: seq<string>, final: string)
    requires |snaps| > 0 && SingleLines(snaps) && Cumulative(snaps, final)
    ensures IsBest(Join(snaps, "\n"), -1, final, Some(Score(|snaps|, Growth(snaps + [final]))))
  {
    var text := Join(snaps, "\n");
    SplitOfJoin(snaps, '\n');
    assert "\n" == ['\n'];
    assert IsStream(text, -1, final, snaps);
    forall other | IsStream(text, -1, final, other)
      ensures !Better(StreamScore(-1, final, other), Score(|snaps|, Growth(snaps + [final])))
    {
      LinesBound(other);
    }
    assert StreamScore(-1, final, snaps) == Score(|snaps|, Growth(snaps + [final]));
  }

  /** An earlier cut leaves fewer lines. */
  lemma EarlierCutHasFewerLines(text: string, k: nat)
    requires k < |text| && text[k] == '\n'
    ensures |Split(text[..k], '\n')| < |Split(text, '\n')|
  {
    SplitConcat(text[..k], text[k + 1..], '\n');
    assert text == text[..k] + ['\n'] + text[k + 1..];
  }

  /** What normalisation is for, on single-line snapshots: the stream is replaced by its newest snapshot exactly
      when there are at least four older ones that grow at least four times up to it, and both sides are long
      enough. */
  lemma LineStreamNormalizes(snaps: seq<string>, final: string)
    requires |snaps| > 0 && SingleLines(snaps + [final]) && Cumulative(snaps, final)
    ensures var source, separator := Join(snaps + [final], "\n"), |Join(snaps, "\n")|;
            var score := Score(|snaps|, Growth(snaps + [final]));
      && separator + 1 + |final| == |source| && source[separator + 1..] == final
      && (CutsBelow(source, |source|, Some(Cut(separator, score))) <==>
            |snaps| >= 4 && score.growthSteps >= 4 && separator >= 32 && |final| >= 16)
  {
    var all := snaps + [final];
    assert final == all[|snaps|] && forall i :: 0 <= i < |snaps| ==> snaps[i] == all[i];
    assert '\n' !in final && SingleLines(snaps) && "\n" == ['\n'];
    JoinAppend(snaps, [final], "\n");
    assert Join([final], "\n") == final;
    hide IsBest, Growth, Split, Join, Cumulative, CutsBelow;
    LineStreamIsBest(snaps, final);
    SplitOfJoin(snaps, '\n');
    CutOfLines(Join(all, "\n"), Join(snaps, "\n"), final, Score(|snaps|, Growth(snaps + [final])));
  }

  /** The same for a stream of lines that end with a return and a newline. */
  lemma CrlfStreamNormalizes(snaps: seq<string>, final: string)
    requires |snaps| > 0 && SingleLines(snaps + [final]) && Cumulative(snaps, final)
    ensures var source, separator := CrlfToLf(Join(snaps + [final], "\r\n")), |Join(snaps, "\n")|;
            var score := Score(|snaps|, Growth(snaps + [final]));
      && separator + 1 + |final| == |source| && source[separator + 1..] == final
      && (CutsBelow(source, |source|, Some(Cut(separator, score))) <==>
            |snaps| >= 4 && score.growthSteps >= 4 && separator >= 32 && |final| >= 16)
  {
    CrlfLines(snaps + [final]);
    hide *;
    LineStreamNormalizes(snaps, final);
  }

  /** The last line break of a text is its best cut as soon as it is convincing, if the text before it is best
      read line by line. */
  lemma CutOfLines(source: string, text: string, final: string, score: Score)
    requires source == text + "\n" + final && '\n' !in final
    requires IsBest(text, -1, final, Some(score)) && score.snapshots == |Split(text, '\n')|
    ensures |text| + 1 + |final| == |source| && source[|text| + 1..] == final
    ensures CutsBelow(source, |source|, Some(Cut(|text|, score))) <==>
            && score.snapshots >= MIN_PREFIX_SNAPSHOTS && score.growthSteps >= MIN_GROWTH_STEPS
            && |text| >= MIN_DISCARDED_CHARS && |final| >= MIN_FINAL_CHARS
  {
    assert source[..|text|] == text && source[|text| + 1..] == final;
    assert forall k :: |text| < k < |source| ==> source[k] == final[k - |text| - 1];
    hide IsBest, Split;
    forall k: nat, other | Recovers(source, k, other)
      ensures k <= |text| && (k < |text| ==> other.snapshots < score.snapshots) && (k == |text| ==> other == score)
    {
      if k < |text| {
        EarlierCut(source, text, k, other);
      } else if k == |text| {
        BestIsUnique(text, -1, final, Some(other), Some(score));
      }
    }
    if |final| >= MIN_FINAL_CHARS {
      assert Recovers(source, |text|, score) <==>
        score.snapshots >= MIN_PREFIX_SNAPSHOTS && score.growthSteps >= MIN_GROWTH_STEPS
            && |text| >= MIN_DISCARDED_CHARS;
    }
  }

  lemma EarlierCut(source: string, text: string, k: nat, other: Score)
    requires text <= source && k < |text| && Recovers(source, k, other)
    ensures other.snapshots < |Split(text, '\n')|
  {
    var final := source[k + 1..];
    assert source[..k] == text[..k] && source[k] == text[k];
    var snaps :| IsStream(text[..k], -1, final, snaps) && StreamScore(-1, final, snaps) == other;
    LinesBound(snaps);
    EarlierCutHasFewerLines(text, k);
  }

  /** The best cut is unique, so normalisation is determined by the text. */
  lemma CutIsUnique(source: string, a: Option<Cut>, b: Option<Cut>)
    requires CutsBelow(source, |source|, a) && CutsBelow(source, |source|, b)
    ensures a == b
  {
    hide Recovers;
  }

  // ---------------------------------------------------------------- a stream that is not recognised

  /** `k` lines holding one and the same character. */
  function Ticks(k: nat): (r: seq<string>)
    ensures |r| == k && forall i :: 0 <= i < k ==> r[i] == "a"
  {
    if k == 0 then [] else Ticks(k - 1) + ["a"]
  }

  /** The growing stream "a", "a\na", "a\na\na", ... */
  function Stairs(n: nat): (r: seq<string>)
    ensures |r| == n && forall i :: 0 <= i < n ==> r[i] == Join(Ticks(i + 1), "\n")
  {
    if n == 0 then [] else Stairs(n - 1) + [Join(Ticks(n), "\n")]
  }

  function StairsFinal(n: nat): string {
    Join(Ticks(n), "\n") + "................"
  }

  function Triangle(n: nat): nat {
    if n == 0 then 0 else Triangle(n - 1) + n
  }

  lemma TicksConcat(j: nat, k: nat)
    ensures Ticks(j) + Ticks(k) == Ticks(j + k)
  {
  }

  lemma {:induction false} StairsAreTicks(n: nat)
    requires n > 0
    ensures Join(Stairs(n), "\n") == Join(Ticks(Triangle(n)), "\n") && Triangle(n) >= n
  {
    if n == 1 {
      assert Stairs(1) == [Join(Ticks(1), "\n")];
      assert Triangle(1) == 1;
    } else {
      StairsAreTicks(n - 1);
      JoinAppend(Stairs(n - 1), [Join(Ticks(n), "\n")], "\n");
      JoinAppend(Ticks(Triangle(n - 1)), Ticks(n), "\n");
      TicksConcat(Triangle(n - 1), n);
    }
  }

  lemma {:induction false} TicksLength(k: nat)
    requires k > 0
    ensures |Join(Ticks(k), "\n")| == 2 * k - 1
    ensures Join(Ticks(k), "\n")[0] == 'a'
  {
    if k > 1 {
      TicksLength(k - 1);
      JoinAppend(Ticks(k - 1), ["a"], "\n");
    }
  }

  lemma TicksPrefix(j: nat, k: nat)
    requires 0 < j <= k
    ensures Join(Ticks(j), "\n") <= Join(Ticks(k), "\n")
  {
    if j < k {
      TicksConcat(j, k - j);
      JoinAppend(Ticks(j), Ticks(k - j), "\n");
    }
  }

  lemma {:induction false} StrictGrowth(snaps: seq<string>)
    requires |snaps| > 0 && forall i :: 0 < i < |snaps| ==> |snaps[i - 1]| < |snaps[i]|
    ensures Growth(snaps) == |snaps| - 1
  {
    if |snaps| > 1 {
      var rest := snaps[1..];
      assert forall i :: 0 < i < |rest| ==> rest[i - 1] == snaps[i] && rest[i] == snaps[i + 1];
      StrictGrowth(rest);
    }
  }

  /** The longest reading of `k` one-character lines is those lines, and it hardly grows. */
  lemma {:induction false} ShortestPieces(snaps: seq<string>, k: nat)
    requires |snaps| > 0 && forall i :: 0 <= i < |snaps| ==> snaps[i] != ""
    requires |Join(snaps, "\n")| == 2 * k - 1 && |snaps| >= k
    ensures |snaps| == k && forall i :: 0 <= i < |snaps| ==> |snaps[i]| == 1
  {
    if |snaps| > 1 {
      JoinStep(snaps, "\n");
      LengthBound(snaps[1..]);
      assert |snaps[0]| + 1 + |Join(snaps[1..], "\n")| == 2 * k - 1;
      if |snaps[0]| == 1 {
        ShortestPieces(snaps[1..], k - 1);
      }
    }
  }

  lemma {:induction false} LengthBound(snaps: seq<string>)
    requires |snaps| > 0 && forall i :: 0 <= i < |snaps| ==> snaps[i] != ""
    ensures |Join(snaps, "\n")| >= 2 * |snaps| - 1
  {
    if |snaps| > 1 {
      LengthBound(snaps[1..]);
    }
  }

  lemma {:induction false} FlatGrowth(snaps: seq<string>, final: string)
    requires |snaps| > 0 && forall i :: 0 <= i < |snaps| ==> |snaps[i]| == 1
    ensures Growth(snaps + [final]) <= 1
  {
    var all := snaps + [final];
    assert all[1..] == snaps[1..] + [final];
    if |snaps| > 1 {
      FlatGrowth(snaps[1..], final);
    } else {
      assert all[1..] == [final];
    }
  }

  /** Lines of one and the same character, the last of them with a tail: no cut is convincing, because what stands
      before it reads as that many one-character snapshots. */
  lemma TicksAreNeverRecovered(n: nat, tail: string, k: nat, score: Score)
    requires n > 0 && '\n' !in tail
    ensures !Recovers(Join(Ticks(n), "\n") + tail, k, score)
  {
    var ticks := Join(Ticks(n), "\n");
    var source := ticks + tail;
    TicksLength(n);
    assert forall i :: |ticks| <= i < |source| ==> source[i] == tail[i - |ticks|];
    if k < |ticks| && source[k] == '\n' {
      var j := TickCut(n, k);
      assert source[..k] == ticks[..k] && source[k + 1] == ticks[k + 1] == 'a';
      hide Join, Ticks;
      TickCutFails(source, k, j, score);
    }
  }

  /** Where the newlines of such lines are. */
  lemma {:induction false} TickCut(n: nat, k: nat) returns (j: int)
    requires n > 0 && k < |Join(Ticks(n), "\n")| && Join(Ticks(n), "\n")[k] == '\n'
    ensures 0 < j < n && k == 2 * j - 1 && Join(Ticks(n), "\n")[..k] == Join(Ticks(j), "\n")
    ensures k + 1 < |Join(Ticks(n), "\n")| && Join(Ticks(n), "\n")[k + 1] == 'a'
  {
    TicksLength(n);
    j := 0;
    if n > 1 {
      var ticks, front := Join(Ticks(n), "\n"), Join(Ticks(n - 1), "\n");
      TicksLength(n - 1);
      JoinAppend(Ticks(n - 1), ["a"], "\n");
      assert ticks == front + "\n" + "a";
      if k < |front| {
        j := TickCut(n - 1, k);
        assert ticks[..k] == front[..k];
      } else {
        j := n - 1;
        assert ticks[..k] == front;
      }
    }
  }

  lemma TickCutFails(source: string, k: nat, j: nat, score: Score)
    requires k + 1 < |source| && source[k + 1] == 'a' && 0 < j && source[..k] == Join(Ticks(j), "\n")
    ensures !Recovers(source, k, score)
  {
    var final, text := source[k + 1..], Join(Ticks(j), "\n");
    TicksLength(j);
    assert IsStream(text, -1, final, Ticks(j)) by {
      assert final[0] == 'a' && "a" <= final;
    }
    if IsBest(text, -1, final, Some(score)) {
      var other :| IsStream(text, -1, final, other) && StreamScore(-1, final, other) == score;
      ShortestPieces(other, j);
      FlatGrowth(other, final);
    }
  }

  /** A growing stream that meets every threshold. */
  lemma StairsGrow(n: nat)
    requires n >= 6
    ensures Cumulative(Stairs(n), StairsFinal(n)) && |Stairs(n)| >= MIN_PREFIX_SNAPSHOTS
    ensures Growth(Stairs(n) + [StairsFinal(n)]) >= MIN_GROWTH_STEPS
    ensures |Join(Stairs(n), "\n")| >= MIN_DISCARDED_CHARS && |StairsFinal(n)| >= MIN_FINAL_CHARS
  {
    var snaps, final := Stairs(n), StairsFinal(n);
    StairsLengths(n);
    hide *;
    StepsGrow(snaps, final);
  }

  /** Snapshots of the lengths 1, 3, 5, ... and a longer final one. */
  lemma StepsGrow(snaps: seq<string>, final: string)
    requires forall i :: 0 <= i < |snaps| ==> |snaps[i]| == 2 * i + 1 && snaps[i] <= final
    requires |final| > 2 * |snaps|
    ensures Cumulative(snaps, final) && Growth(snaps + [final]) == |snaps|
  {
    var all := snaps + [final];
    assert forall i :: 0 < i < |all| ==> |all[i - 1]| < |all[i]|;
    StrictGrowth(all);
  }

  lemma StairsLengths(n: nat)
    requires n >= 6
    ensures |StairsFinal(n)| == 2 * n + 15 && |Join(Stairs(n), "\n")| >= MIN_DISCARDED_CHARS
    ensures |StairsFinal(n)| >= MIN_FINAL_CHARS && |Stairs(n)| == n >= MIN_PREFIX_SNAPSHOTS && n >= MIN_GROWTH_STEPS
    ensures forall i :: 0 <= i < n ==> |Stairs(n)[i]| == 2 * i + 1 && Stairs(n)[i] <= StairsFinal(n)
  {
    forall i | 0 <= i < n
      ensures |Stairs(n)[i]| == 2 * i + 1 && Stairs(n)[i] <= StairsFinal(n)
    {
      TicksLength(i + 1);
      TicksPrefix(i + 1, n);
    }
    TicksLength(n);
    hide Join, Ticks, Stairs;
    StairsAreTicks(n);
    TriangleGrows(n);
    TicksLength(Triangle(n));
  }

  /** And it is still not recognised, at this cut or any other, so normalisation leaves it alone: the same text
      also reads as many equal one-character snapshots, and the search prefers more snapshots to more growth. */
  lemma GrowingStreamMissed(n: nat)
    requires n >= 6
    ensures var source := Join(Stairs(n) + [StairsFinal(n)], "\n");
            CrlfToLf(source) == source && CutsBelow(source, |source|, None)
  {
    var source, tail := Join(Stairs(n) + [StairsFinal(n)], "\n"), "................";
    StairsAreOneStream(n);
    assert '\n' !in tail && '\r' !in tail;
    NoReturns(Triangle(n) + n, tail);
    hide *;
    forall k: nat, score
      ensures !Recovers(source, k, score)
    {
      TicksAreNeverRecovered(Triangle(n) + n, tail, k, score);
    }
    NoCut(source);
  }

  lemma NoCut(source: string)
    requires forall k: nat, score :: !Recovers(source, k, score)
    ensures CutsBelow(source, |source|, None)
  {
  }

  lemma StairsAreOneStream(n: nat)
    requires n > 0
    ensures Join(Stairs(n) + [StairsFinal(n)], "\n") == Join(Ticks(Triangle(n) + n), "\n") + "................"
  {
    StairsAreTicks(n);
    JoinAppend(Stairs(n), [StairsFinal(n)], "\n");
    JoinAppend(Ticks(Triangle(n)), Ticks(n), "\n");
    TicksConcat(Triangle(n), n);
    var a, b, dots := Join(Ticks(Triangle(n)), "\n"), Join(Ticks(n), "\n"), "................";
    assert StairsFinal(n) == b + dots;
    hide *;
    Reassociate(a + "\n", b, dots);
  }

  lemma NoReturns(n: nat, tail: string)
    requires n > 0 && '\r' !in tail
    ensures CrlfToLf(Join(Ticks(n), "\n") + tail) == Join(Ticks(n), "\n") + tail
  {
    TicksHaveNoReturn(n);
    hide Join, Ticks;
    NoReturnNoCrlf(Join(Ticks(n), "\n") + tail);
  }

  lemma {:induction false} TicksHaveNoReturn(n: nat)
    requires n > 0
    ensures '\r' !in Join(Ticks(n), "\n")
  {
    if n == 1 {
      assert Join(Ticks(1), "\n") == "a";
    } else {
      TicksHaveNoReturn(n - 1);
      JoinAppend(Ticks(n - 1), ["a"], "\n");
    }
  }

  lemma {:induction false} TriangleGrows(n: nat)
    requires n >= 6
    ensures Triangle(n) >= 21
  {
    if n > 6 {
      TriangleGrows(n - 1);
    } else {
      assert Triangle(1) == 1 && Triangle(2) == 3 && Triangle(3) == 6 && Triangle(4) == 10 && Triangle(5) == 15;
    }
  }
}
