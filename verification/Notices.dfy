/** Printing, parsing and merging of third-party notices (scripts/generate-macos-libwebrtc-notices.py). */
module Notices {
  import opened Results
  import opened Text
  import opened StringOrder

  /** A license section: the library's name and its body. */
  type Section = Keyed<string>

  datatype Notice = Notice(revision: string, sections: seq<Section>)

  datatype ParseError =
    | InvalidInventory
    | TargetMismatch
    | InvalidLibraries
    | SectionMismatch(library: string)
    | EmptySection(library: string)
    | TrailingContent

  // ---------------------------------------------------------------- the format

  function TitleLine(): string { "<!-- imcodes-macos-libwebrtc-notices-v1" }

  function RevisionKey(): string { "libwebrtcRevision=" }

  function Opening(): string {
    TitleLine() + ("\n" + RevisionKey())
  }

  function TargetsMark(): string { "\ntargets=" }

  function LibrariesMark(): string { "\nlibraries=" }

  function Closing(): string { "\n-->\n\n" }

  function Fence(): (r: string)
    ensures |r| == 5
  {
    "\n```\n"
  }

  function SectionOpening(name: string): string {
    "# " + name + "\n```\n"
  }

  function SectionText(s: Section): string {
    SectionOpening(s.key) + (s.value + Fence())
  }

  function Names(ss: seq<Section>): (r: seq<string>)
    ensures |r| == |ss| && forall i :: 0 <= i < |r| ==> r[i] == ss[i].key
  {
    seq(|ss|, i requires 0 <= i < |ss| => ss[i].key)
  }

  function PrintSections(ss: seq<Section>): string {
    if ss == [] then ""
    else SectionText(ss[0]) + (if |ss| == 1 then "" else "\n" + PrintSections(ss[1..]))
  }

  function PrintInventory(revision: string, targets: seq<string>, libraries: seq<string>): string {
    Opening() + (revision + (TargetsMark() + (Join(targets, ",")
        + (LibrariesMark() + (Join(libraries, ",") + Closing())))))
  }

  /** The whole file. */
  function Print(revision: string, targets: seq<string>, ss: seq<Section>): string {
    PrintInventory(revision, targets, Names(ss)) + PrintSections(ss)
  }

  // ---------------------------------------------------------------- parsing

  /** `str.isspace`. */
  predicate IsPySpace(c: char) {
    '\t' <= c <= '\r' || '\U{1C}' <= c <= ' ' || c == '\U{85}' || c == '\U{A0}' || c == '\U{1680}'
    || '\U{2000}' <= c <= '\U{200A}' || c == '\U{2028}' || c == '\U{2029}' || c == '\U{202F}' || c == '\U{205F}'
          || c == '\U{3000}'
  }

  /** It is the white space of JavaScript without the byte order mark, and with the information separators and the
      next-line character. */
  lemma PySpaceIff(c: char)
    ensures IsPySpace(c) <==>
            (IsJsSpace(c) && c != '\U{FEFF}') || '\U{1C}' <= c <= '\U{1F}' || c == '\U{85}'
  {
  }

  /** `not s.strip()`. */
  predicate IsBlank(s: string) {
    forall i :: 0 <= i < |s| ==> IsPySpace(s[i])
  }

  predicate IsHex(s: string) {
    forall i :: 0 <= i < |s| ==> '0' <= s[i] <= '9' || 'a' <= s[i] <= 'f'
  }

  /** `text.startswith(pat, i)`. */
  predicate StartsAt(text: string, pat: string, i: nat)
    ensures StartsAt(text, pat, i) <==> OccursAt(text, pat, i)
  {
    i + |pat| <= |text| && text[i..i + |pat|] == pat
  }

  /** End of the line that `i` is on. */
  function LineEnd(text: string, i: nat): (r: nat)
    requires i <= |text|
    ensures i <= r <= |text| && '\n' !in text[i..r] && (r < |text| ==> text[r] == '\n')
    decreases |text| - i
  {
    if i == |text| || text[i] == '\n' then i
    else
      var r := LineEnd(text, i + 1);
      assert text[i..r] == [text[i]] + text[i + 1..r];
      r
  }

  datatype Inventory = Inventory(revision: string, targets: string, libraries: string, end: nat)

  /** The inventory pattern, matched at the start of the text. */
  function MatchInventory(text: string): (r: Option<Inventory>)
    ensures r.Some? ==> r.value.end <= |text|
  {
    var revisionAt := |Opening()|;
    var markAt := revisionAt + 40;
    if !StartsAt(text, Opening(), 0) || !StartsAt(text, TargetsMark(), markAt)
        || !IsHex(text[revisionAt..markAt]) then None
    else MatchLists(text, text[revisionAt..markAt], markAt + |TargetsMark()|)
  }

  /** The targets and the libraries, from `targetsAt` on. */
  function MatchLists(text: string, revision: string, targetsAt: nat): (r: Option<Inventory>)
    requires targetsAt <= |text|
    ensures r.Some? ==> r.value.end <= |text| && r.value.revision == revision
  {
    var targetsEnd := LineEnd(text, targetsAt);
    if targetsEnd == targetsAt || !StartsAt(text, LibrariesMark(), targetsEnd) then None
    else
      var librariesAt := targetsEnd + |LibrariesMark()|;
      var librariesEnd := LineEnd(text, librariesAt);
      if librariesEnd == librariesAt || !StartsAt(text, Closing(), librariesEnd) then None
      else Some(Inventory(revision, text[targetsAt..targetsEnd], text[librariesAt..librariesEnd],
                          librariesEnd + |Closing()|))
  }

  datatype Read = ReadFail(error: ParseError) | ReadOk(section: Section, cursor: nat)

  /** One section at the cursor, and the cursor after it. */
  function ReadSection(text: string, cursor: nat, library: string): (r: Read)
    requires cursor <= |text|
    ensures r.ReadOk? ==> cursor < r.cursor <= |text| && r.section.key == library
  {
    if !StartsAt(text, SectionOpening(library), cursor) then ReadFail(SectionMismatch(library))
    else
      var start := cursor + |SectionOpening(library)|;
      var end := IndexOf(text, Fence(), start);
      if end == -1 || IsBlank(text[start..end]) then ReadFail(EmptySection(library))
      else
        var next := end + |Fence()|;
        ReadOk(Keyed(library, text[start..end]), if next < |text| && text[next] == '\n' then next + 1 else next)
  }

  /** The sections of the listed libraries, in order. */
  function ReadSections(text: string, cursor: nat, libraries: seq<string>): (r: Result<(seq<Section>, nat), ParseError>)
    requires cursor <= |text|
    ensures r.Ok? ==> r.value.1 <= |text| && |r.value.0| == |libraries|
    ensures r.Ok? ==> forall i :: 0 <= i < |libraries| ==> r.value.0[i].key == libraries[i]
    decreases |libraries|
  {
    if libraries == [] then Ok(([], cursor))
    else
      var one := ReadSection(text, cursor, libraries[0]);
      if one.ReadFail? then Err(one.error)
      else
        var rest := ReadSections(text, one.cursor, libraries[1..]);
        if rest.Err? then Err(rest.error) else Ok(([one.section] + rest.value.0, rest.value.1))
  }

  predicate DistinctNames(xs: seq<string>) {
    forall i, j :: 0 <= i < j < |xs| ==> xs[i] != xs[j]
  }

  /** `parse_notices` on the file's text; `expected` is the sorted list of expected targets. */
  function Parse(text: string, expected: seq<string>): Result<Notice, ParseError> {
    var inventory := MatchInventory(text);
    if inventory.None? then Err(InvalidInventory)
    else if Split(inventory.value.targets, ',') != expected then Err(TargetMismatch)
    else
      var libraries := Split(inventory.value.libraries, ',');
      if libraries[0] != "webrtc" || !DistinctNames(libraries) then Err(InvalidLibraries)
      else
        var read := ReadSections(text, inventory.value.end, libraries);
        if read.Err? then Err(read.error)
        else if !IsBlank(text[read.value.1..]) then Err(TrailingContent)
        else Ok(Notice(inventory.value.revision, read.value.0))
  }

  /** The sections read so far, followed by what the rest of the list reads as. */
  function After(sections: seq<Section>, rest: Result<(seq<Section>, nat), ParseError>)
    : Result<(seq<Section>, nat), ParseError>
  {
    if rest.Err? then rest else Ok((sections + rest.value.0, rest.value.1))
  }

  lemma ReadSectionsStep(text: string, cursor: nat, libraries: seq<string>, i: nat, sections: seq<Section>)
    requires cursor <= |text| && i < |libraries|
    ensures var one := ReadSection(text, cursor, libraries[i]);
            After(sections, ReadSections(text, cursor, libraries[i..]))
            == if one.ReadFail? then Err(one.error)
               else After(sections + [one.section], ReadSections(text, one.cursor, libraries[i + 1..]))
  {
    hide ReadSection;
    assert libraries[i..][1..] == libraries[i + 1..];
    var one := ReadSection(text, cursor, libraries[i]);
    if one.ReadOk? {
      var rest := ReadSections(text, one.cursor, libraries[i + 1..]);
      if rest.Ok? {
        assert sections + ([one.section] + rest.value.0) == sections + [one.section] + rest.value.0;
      }
    }
  }

  /** The reading loop: a cursor and a growing dictionary. */
  method ReadAll(text: string, start: nat, libraries: seq<string>) returns (r: Result<(seq<Section>, nat), ParseError>)
    requires start <= |text|
    ensures r == ReadSections(text, start, libraries)
  {
    var sections: seq<Section> := [];
    var cursor: nat := start;
    var i := 0;
    assert libraries[0..] == libraries;
    ghost var whole := ReadSections(text, start, libraries);
    AfterNothing(whole);
    hide After, ReadSections, ReadSection;
    while i < |libraries|
      invariant 0 <= i <= |libraries| && cursor <= |text|
      invariant whole == After(sections, ReadSections(text, cursor, libraries[i..]))
    {
      ReadSectionsStep(text, cursor, libraries, i, sections);
      var one := ReadSection(text, cursor, libraries[i]);
      if one.ReadFail? { return Err(one.error); }
      sections := sections + [one.section];
      cursor := one.cursor;
      i := i + 1;
    }
    assert libraries[i..] == [];
    NothingLeft(text, sections, cursor);
    r := Ok((sections, cursor));
  }

  lemma AfterNothing(rest: Result<(seq<Section>, nat), ParseError>)
    ensures After([], rest) == rest
  {
    if rest.Ok? {
      assert [] + rest.value.0 == rest.value.0;
    }
  }

  lemma NothingLeft(text: string, sections: seq<Section>, cursor: nat)
    requires cursor <= |text|
    ensures After(sections, ReadSections(text, cursor, [])) == Ok((sections, cursor))
  {
    assert sections + [] == sections;
  }

  /** `parse_notices` as the source runs it. Whatever it accepts is good, and printing that and parsing it again gives
      the same result, so parsing and printing lose nothing. */
  method ParseNotices(text: string, expected: seq<string>) returns (r: Result<Notice, ParseError>)
    ensures r == Parse(text, expected)
    ensures r.Ok? ==> GoodRevision(r.value.revision) && GoodSections(r.value.sections)
    ensures r.Ok? && GoodTargets(expected) ==> Parse(Print(r.value.revision, expected, r.value.sections), expected) == r
  {
    ParsedIsGoodAgain(text, expected);
    hide GoodRevision, GoodSections, GoodTargets, Print;
    var inventory := MatchInventory(text);
    if inventory.None? { return Err(InvalidInventory); }
    if Split(inventory.value.targets, ',') != expected { return Err(TargetMismatch); }
    var libraries := Split(inventory.value.libraries, ',');
    if libraries[0] != "webrtc" || !DistinctNames(libraries) { return Err(InvalidLibraries); }
    var read := ReadAll(text, inventory.value.end, libraries);
    if read.Err? { return Err(read.error); }
    if !IsBlank(text[read.value.1..]) { return Err(TrailingContent); }
    r := Ok(Notice(inventory.value.revision, read.value.0));
  }

  // ---------------------------------------------------------------- what can be printed and read back

  /** A body is closed by the fence that is printed after it, not earlier. */
  predicate IsFenced(body: string) {
    IndexOf(body + Fence(), Fence(), 0) == |body|
  }

  predicate GoodName(name: string) {
    ',' !in name && '\n' !in name
  }

  ghost predicate GoodSection(s: Section) {
    GoodName(s.key) && IsFenced(s.value) && !IsBlank(s.value)
  }

  ghost predicate GoodSections(ss: seq<Section>) {
    && ss != [] && ss[0].key == "webrtc" && DistinctNames(Names(ss))
    && forall i :: 0 <= i < |ss| ==> GoodSection(ss[i])
  }

  ghost predicate GoodTargets(targets: seq<string>) {
    targets != [] && Join(targets, ",") != "" && forall i :: 0 <= i < |targets| ==> GoodName(targets[i])
  }

  ghost predicate GoodRevision(revision: string) {
    |revision| == 40 && forall c :: c in revision ==> c in "0123456789abcdef"
  }

  lemma HexIff(s: string)
    ensures IsHex(s) <==> forall c :: c in s ==> c in "0123456789abcdef"
  {
    assert forall i :: 0 <= i < |s| ==> s[i] in s;
    DigitsAre();
  }

  lemma DigitsAre()
    ensures forall c: char :: c in "0123456789abcdef" <==> '0' <= c <= '9' || 'a' <= c <= 'f'
  {
  }

  /** Whatever the parser returns can be printed and read back: its bodies are fenced by construction. */
  lemma ParsedIsGood(text: string, expected: seq<string>)
    requires Parse(text, expected).Ok?
    ensures var n := Parse(text, expected).value; GoodRevision(n.revision) && GoodSections(n.sections)
  {
    var inventory := MatchInventory(text).value;
    var libraries := Split(inventory.libraries, ',');
    InventoryIsGood(text);
    hide MatchInventory;
    ReadSectionsAreGood(text, inventory.end, libraries);
    var ss := Parse(text, expected).value.sections;
    assert Names(ss) == libraries;
    SplitKeepsOut(inventory.libraries, ',', '\n');
    forall i | 0 <= i < |ss|
      ensures GoodSection(ss[i])
    {
      assert ss[i].key == libraries[i];
    }
  }

  lemma InventoryIsGood(text: string)
    requires MatchInventory(text).Some?
    ensures GoodRevision(MatchInventory(text).value.revision) && '\n' !in MatchInventory(text).value.libraries
  {
    hide Opening, TargetsMark, LibrariesMark, Closing;
  }

  lemma {:induction false} SplitKeepsOut(s: string, sep: char, c: char)
    requires c !in s
    ensures forall i :: 0 <= i < |Split(s, sep)| ==> c !in Split(s, sep)[i]
  {
    if s != "" {
      SplitKeepsOut(s[1..], sep, c);
    }
  }

  lemma {:induction false} ReadSectionsAreGood(text: string, cursor: nat, libraries: seq<string>)
    requires cursor <= |text| && ReadSections(text, cursor, libraries).Ok?
    ensures forall i :: 0 <= i < |libraries| ==>
              var s := ReadSections(text, cursor, libraries).value.0[i]; IsFenced(s.value) && !IsBlank(s.value)
    decreases |libraries|
  {
    if libraries != [] {
      ReadSectionIsGood(text, cursor, libraries[0]);
      hide ReadSection, IsFenced, IsBlank;
      ReadSectionsAreGood(text, ReadSection(text, cursor, libraries[0]).cursor, libraries[1..]);
    }
  }

  lemma ReadSectionIsGood(text: string, cursor: nat, library: string)
    requires cursor <= |text| && ReadSection(text, cursor, library).ReadOk?
    ensures var s := ReadSection(text, cursor, library).section; IsFenced(s.value) && !IsBlank(s.value)
  {
    var start := cursor + |SectionOpening(library)|;
    var end := IndexOf(text, Fence(), start);
    hide SectionOpening, IsBlank;
    var body := text[start..end];
    FirstFence(text, start, end);
  }

  /** A fence found first after `start` closes exactly the text between. */
  lemma FirstFence(text: string, start: nat, end: nat)
    requires start <= end && end == IndexOf(text, Fence(), start)
    ensures IsFenced(text[start..end])
  {
    var body := text[start..end];
    var all := body + Fence();
    assert all[|body|..|body| + |Fence()|] == Fence();
    assert OccursAt(all, Fence(), |body|);
    assert text[start..end + |Fence()|] == all;
    forall j | 0 <= j < |body|
      ensures !OccursAt(all, Fence(), j)
    {
      OccursWithin(text, all, start, Fence(), j);
    }
  }

  /** And the other way: printed after an opening, a fenced body is closed by its own fence. */
  lemma FenceFound(text: string, body: string, start: nat)
    requires IsFenced(body) && OccursAt(text, body + Fence(), start)
    ensures IndexOf(text, Fence(), start) == start + |body|
  {
    var all := body + Fence();
    assert all[|body|..] == Fence() && OccursAt(all, Fence(), |body|);
    OccursWithin(text, all, start, Fence(), |body|);
    forall j | start <= j < start + |body|
      ensures !OccursAt(text, Fence(), j)
    {
      OccursWithin(text, all, start, Fence(), j - start);
    }
  }

  // ---------------------------------------------------------------- reading back what was printed

  /** Reading a printed section, with or without another one behind it. */
  lemma ReadPrintedSection(text: string, cursor: nat, s: Section)
    requires cursor <= |text| && OccursAt(text, SectionText(s), cursor) && IsFenced(s.value) && !IsBlank(s.value)
    ensures var next := cursor + |SectionText(s)|;
            next <= |text| && ReadSection(text, cursor, s.key)
                == ReadOk(s, if next < |text| && text[next] == '\n' then next + 1 else next)
  {
    hide *;
    SectionTextIs(s);
    SectionParts(text, cursor, SectionOpening(s.key), s.value, SectionText(s));
    ReadSectionParts(text, cursor, s, cursor + |SectionOpening(s.key)|);
  }

  lemma SectionTextIs(s: Section)
    ensures SectionText(s) == SectionOpening(s.key) + (s.value + Fence())
  {
  }

  lemma ReadSectionParts(text: string, cursor: nat, s: Section, start: nat)
    requires OccursAt(text, SectionOpening(s.key), cursor) && start == cursor + |SectionOpening(s.key)|
    requires OccursAt(text, s.value, start) && OccursAt(text, s.value + Fence(), start)
    requires IsFenced(s.value) && !IsBlank(s.value) && cursor <= |text|
    ensures var next := start + |s.value| + |Fence()|;
            next <= |text| && ReadSection(text, cursor, s.key)
                == ReadOk(s, if next < |text| && text[next] == '\n' then next + 1 else next)
  {
    hide *;
    FenceFound(text, s.value, start);
    ReadSectionStep(text, cursor, s, start, start + |s.value|);
  }

  lemma SectionParts(text: string, cursor: nat, opening: string, body: string, whole: string)
    requires whole == opening + (body + Fence()) && OccursAt(text, whole, cursor)
    ensures OccursAt(text, opening, cursor) && OccursAt(text, body + Fence(), cursor + |opening|)
    ensures OccursAt(text, body, cursor + |opening|) && |whole| == |opening| + |body| + |Fence()|
  {
    hide *;
    OccursSplit(text, opening, body + Fence(), cursor);
    OccursSplit(text, body, Fence(), cursor + |opening|);
  }

  lemma ReadSectionStep(text: string, cursor: nat, s: Section, start: nat, end: nat)
    requires OccursAt(text, SectionOpening(s.key), cursor) && start == cursor + |SectionOpening(s.key)|
    requires OccursAt(text, s.value, start) && end == start + |s.value| == IndexOf(text, Fence(), start)
             && !IsBlank(s.value)
    requires cursor <= |text|
    ensures var next := end + |Fence()|;
            next <= |text| && ReadSection(text, cursor, s.key)
                == ReadOk(s, if next < |text| && text[next] == '\n' then next + 1 else next)
  {
    hide IsBlank, SectionOpening, IndexOf, Fence;
    assert text[start..end] == s.value;
    assert OccursAt(text, Fence(), end);
  }

  lemma PrintSectionsStep(ss: seq<Section>)
    requires ss != []
    ensures |ss| == 1 ==> PrintSections(ss) == SectionText(ss[0])
    ensures |ss| > 1 ==> PrintSections(ss) == SectionText(ss[0]) + ("\n" + PrintSections(ss[1..]))
  {
    hide SectionText;
  }

  lemma ReadSectionsCons(text: string, cursor: nat, names: seq<string>, s: Section, next: nat, rest: seq<Section>,
                         end: nat)
    requires cursor <= |text| && names != [] && next <= |text|
    requires ReadSection(text, cursor, names[0]) == ReadOk(s, next)
    requires ReadSections(text, next, names[1..]) == Ok((rest, end))
    ensures ReadSections(text, cursor, names) == Ok(([s] + rest, end))
  {
    hide ReadSection;
  }

  lemma SectionThenRest(text: string, cursor: nat, head: string, tail: string, whole: string)
    requires whole == head + ("\n" + tail) && OccursAt(text, whole, cursor)
    ensures var next := cursor + |head|;
            OccursAt(text, head, cursor) && next < |text| && text[next] == '\n'
            && OccursAt(text, tail, next + 1) && cursor + |whole| == next + 1 + |tail|
  {
    hide *;
    OccursSplit(text, head, "\n" + tail, cursor);
    OccursSplit(text, "\n", tail, cursor + |head|);
    NewlineThere(text, cursor + |head|);
  }

  lemma NewlineThere(text: string, i: nat)
    requires OccursAt(text, "\n", i)
    ensures i < |text| && text[i] == '\n'
  {
    assert text[i..i + 1][0] == '\n';
  }

  lemma ReadLastSection(text: string, cursor: nat, ss: seq<Section>)
    requires |ss| == 1 && OccursAt(text, PrintSections(ss), cursor) && cursor + |PrintSections(ss)| == |text|
    requires IsFenced(ss[0].value) && !IsBlank(ss[0].value)
    ensures ReadSections(text, cursor, Names(ss)) == Ok((ss, |text|))
  {
    assert ReadSections(text, |text|, []) == Ok(([], |text|));
    hide *;
    PrintSectionsStep(ss);
    NamesTail(ss);
    ConsTail(ss);
    ReadPrintedSection(text, cursor, ss[0]);
    ReadSectionsCons(text, cursor, Names(ss), ss[0], |text|, ss[1..], |text|);
  }

  lemma ReadOneMoreSection(text: string, cursor: nat, ss: seq<Section>, next: nat)
    requires |ss| > 1 && OccursAt(text, SectionText(ss[0]), cursor) && cursor <= |text|
    requires next == cursor + |SectionText(ss[0])| && next < |text| && text[next] == '\n'
    requires IsFenced(ss[0].value) && !IsBlank(ss[0].value)
    requires ReadSections(text, next + 1, Names(ss[1..])) == Ok((ss[1..], |text|))
    ensures ReadSections(text, cursor, Names(ss)) == Ok((ss, |text|))
  {
    hide *;
    NamesTail(ss);
    ConsTail(ss);
    ReadPrintedSection(text, cursor, ss[0]);
    ReadSectionsCons(text, cursor, Names(ss), ss[0], next + 1, ss[1..], |text|);
  }

  lemma {:induction false} ReadPrintedSections(text: string, cursor: nat, ss: seq<Section>)
    requires ss != [] && cursor <= |text| && OccursAt(text, PrintSections(ss), cursor)
             && cursor + |PrintSections(ss)| == |text|
    requires forall i :: 0 <= i < |ss| ==> IsFenced(ss[i].value) && !IsBlank(ss[i].value)
    ensures ReadSections(text, cursor, Names(ss)) == Ok((ss, |text|))
    decreases |ss|
  {
    hide *;
    if |ss| == 1 {
      ReadLastSection(text, cursor, ss);
    } else {
      PrintSectionsStep(ss);
      SectionThenRest(text, cursor, SectionText(ss[0]), PrintSections(ss[1..]), PrintSections(ss));
      var next := cursor + |SectionText(ss[0])|;
      ReadPrintedSections(text, next + 1, ss[1..]);
      ReadOneMoreSection(text, cursor, ss, next);
    }
  }

  lemma ConsTail(ss: seq<Section>)
    requires ss != []
    ensures [ss[0]] + ss[1..] == ss && (|ss| == 1 ==> ss[1..] == [])
  {
  }

  lemma NamesTail(ss: seq<Section>)
    requires ss != []
    ensures Names(ss)[1..] == Names(ss[1..]) && Names(ss)[0] == ss[0].key
    ensures |ss| == 1 ==> Names(ss)[1..] == []
  {
  }

  // ---------------------------------------------------------------- reading back the inventory

  lemma LineEndAt(text: string, i: nat, line: string)
    requires OccursAt(text, line, i) && '\n' !in line && i + |line| < |text| && text[i + |line|] == '\n'
    ensures LineEnd(text, i) == i + |line|
  {
    var r, end := LineEnd(text, i), i + |line|;
    hide LineEnd;
    forall k | i <= k < end
      ensures text[k] != '\n'
    {
      assert text[i..end][k - i] == line[k - i];
    }
    forall k | i <= k < r
      ensures text[k] != '\n'
    {
      assert text[i..r][k - i] == text[k];
    }
  }

  lemma {:induction false} JoinKeepsOut(parts: seq<string>, sep: char, c: char)
    requires c != sep && forall i :: 0 <= i < |parts| ==> c !in parts[i]
    ensures c !in Join(parts, [sep])
  {
    if |parts| > 1 {
      JoinKeepsOut(parts[1..], sep, c);
    }
  }

  /** Where the parts of a printed inventory lie. */
  ghost predicate LaidOut(text: string, revision: string, t: string, l: string, end: nat) {
    var targetsAt := |Opening()| + 40 + |TargetsMark()|;
    var librariesAt := targetsAt + |t| + |LibrariesMark()|;
    && OccursAt(text, Opening(), 0) && OccursAt(text, revision, |Opening()|) && |revision| == 40
    && OccursAt(text, TargetsMark(), |Opening()| + 40) && OccursAt(text, t, targetsAt)
    && OccursAt(text, LibrariesMark(), targetsAt + |t|) && OccursAt(text, l, librariesAt)
    && OccursAt(text, Closing(), librariesAt + |l|) && end == librariesAt + |l| + |Closing()|
  }

  lemma MarkStartsLine(text: string, i: nat)
    ensures OccursAt(text, LibrariesMark(), i) || OccursAt(text, Closing(), i) ==> i < |text| && text[i] == '\n'
  {
    if OccursAt(text, LibrariesMark(), i) {
      assert text[i..i + |LibrariesMark()|][0] == LibrariesMark()[0];
    }
    if OccursAt(text, Closing(), i) {
      assert text[i..i + |Closing()|][0] == Closing()[0];
    }
  }

  lemma MatchLaidOut(text: string, revision: string, t: string, l: string, end: nat)
    requires LaidOut(text, revision, t, l, end) && GoodRevision(revision)
    requires t != "" && l != "" && '\n' !in t && '\n' !in l
    ensures MatchInventory(text) == Some(Inventory(revision, t, l, end))
  {
    var targetsAt := |Opening()| + 40 + |TargetsMark()|;
    var librariesAt := targetsAt + |t| + |LibrariesMark()|;
    HexIff(revision);
    assert end == librariesAt + |l| + |Closing()| && |revision| == 40 && IsHex(revision);
    MarksStart(text, revision, t, l, end);
    MarkStartsLine(text, targetsAt + |t|);
    MarkStartsLine(text, librariesAt + |l|);
    LineEndAt(text, targetsAt, t);
    LineEndAt(text, librariesAt, l);
    SliceIs(text, revision, |Opening()|);
    SliceIs(text, t, targetsAt);
    SliceIs(text, l, librariesAt);
    hide *;
    InventoryAt(text, |Opening()| + 40, targetsAt + |t|, librariesAt + |l|);
  }

  /** The inventory pattern, by the places of its marks. */
  lemma InventoryAt(text: string, markAt: nat, targetsEnd: nat, librariesEnd: nat)
    requires var targetsAt, librariesAt := markAt + |TargetsMark()|, targetsEnd + |LibrariesMark()|;
      && markAt == |Opening()| + 40 && targetsAt < targetsEnd && librariesAt < librariesEnd <= |text|
      && StartsAt(text, Opening(), 0) && StartsAt(text, TargetsMark(), markAt) && IsHex(text[|Opening()|..markAt])
      && LineEnd(text, targetsAt) == targetsEnd && StartsAt(text, LibrariesMark(), targetsEnd)
      && LineEnd(text, librariesAt) == librariesEnd && StartsAt(text, Closing(), librariesEnd)
    ensures MatchInventory(text) ==
              Some(Inventory(text[|Opening()|..markAt], text[markAt + |TargetsMark()|..targetsEnd],
                             text[targetsEnd + |LibrariesMark()|..librariesEnd], librariesEnd + |Closing()|))
  {
    var targetsAt, librariesAt := markAt + |TargetsMark()|, targetsEnd + |LibrariesMark()|;
    hide Opening, TargetsMark, LibrariesMark, Closing, LineEnd, IsHex, StartsAt, MatchLists;
    ListsAt(text, text[|Opening()|..markAt], targetsAt, targetsEnd, librariesAt, librariesEnd);
  }

  lemma ListsAt(text: string, revision: string, targetsAt: nat, targetsEnd: nat, librariesAt: nat, librariesEnd: nat)
    requires targetsAt < targetsEnd <= librariesAt < librariesEnd <= |text|
    requires LineEnd(text, targetsAt) == targetsEnd && StartsAt(text, LibrariesMark(), targetsEnd)
    requires librariesAt == targetsEnd + |LibrariesMark()|
    requires LineEnd(text, librariesAt) == librariesEnd && StartsAt(text, Closing(), librariesEnd)
    ensures MatchLists(text, revision, targetsAt)
            == Some(Inventory(revision, text[targetsAt..targetsEnd], text[librariesAt..librariesEnd],
                              librariesEnd + |Closing()|))
  {
    hide LibrariesMark, Closing, LineEnd, StartsAt;
  }

  lemma SliceIs(text: string, part: string, at: nat)
    requires OccursAt(text, part, at)
    ensures at + |part| <= |text| && text[at..at + |part|] == part
  {
  }

  lemma MarksStart(text: string, revision: string, t: string, l: string, end: nat)
    requires LaidOut(text, revision, t, l, end)
    ensures var targetsAt := |Opening()| + 40 + |TargetsMark()|;
            var librariesAt := targetsAt + |t| + |LibrariesMark()|;
            StartsAt(text, Opening(), 0) && StartsAt(text, TargetsMark(), |Opening()| + 40)
            && StartsAt(text, LibrariesMark(), targetsAt + |t|) && StartsAt(text, Closing(), librariesAt + |l|)
  {
    hide Opening, TargetsMark, LibrariesMark, Closing;
  }

  lemma PrintedIsLaidOut(text: string, revision: string, targets: seq<string>, libraries: seq<string>)
    requires OccursAt(text, PrintInventory(revision, targets, libraries), 0) && |revision| == 40
    ensures LaidOut(text, revision, Join(targets, ","), Join(libraries, ","),
            |PrintInventory(revision, targets, libraries)|)
  {
    var t, l := Join(targets, ","), Join(libraries, ",");
    hide Opening, TargetsMark, LibrariesMark, Closing, Join;
    var e := l + Closing();
    var d := LibrariesMark() + e;
    var c := t + d;
    var b := TargetsMark() + c;
    var a := revision + b;
    assert PrintInventory(revision, targets, libraries) == Opening() + a;
    InventoryParts(text, revision, t, l, a, b, c, d, e);
  }

  lemma InventoryParts(text: string, revision: string, t: string, l: string, a: string, b: string, c: string,
                       d: string, e: string)
    requires e == l + Closing() && d == LibrariesMark() + e && c == t + d && b == TargetsMark() + c && a == revision + b
    requires OccursAt(text, Opening() + a, 0) && |revision| == 40
    ensures LaidOut(text, revision, t, l, |Opening() + a|)
  {
    hide Opening, TargetsMark, LibrariesMark, Closing, OccursAt;
    var targetsAt := |Opening()| + 40 + |TargetsMark()|;
    OccursSplit(text, Opening(), a, 0);
    OccursSplit(text, revision, b, |Opening()|);
    OccursSplit(text, TargetsMark(), c, |Opening()| + 40);
    OccursSplit(text, t, d, targetsAt);
    OccursSplit(text, LibrariesMark(), e, targetsAt + |t|);
    OccursSplit(text, l, Closing(), targetsAt + |t| + |LibrariesMark()|);
  }

  lemma PrefixOccurs(a: string, b: string)
    ensures OccursAt(a + b, a, 0) && OccursAt(a + b, b, |a|)
  {
    assert (a + b)[..|a|] == a && (a + b)[|a|..] == b;
  }

  lemma PrintedInventoryMatches(text: string, revision: string, targets: seq<string>, names: seq<string>)
    requires OccursAt(text, PrintInventory(revision, targets, names), 0) && GoodRevision(revision)
             && GoodTargets(targets)
    requires names != [] && names[0] != "" && forall i :: 0 <= i < |names| ==> GoodName(names[i])
    ensures MatchInventory(text) == Some(Inventory(revision, Join(targets, ","), Join(names, ","),
            |PrintInventory(revision, targets, names)|))
    ensures Split(Join(targets, ","), ',') == targets && Split(Join(names, ","), ',') == names
  {
    JoinStartsWith(names);
    assert |revision| == 40 && Join(targets, ",") != "" && targets != [];
    assert forall i :: 0 <= i < |targets| ==> '\n' !in targets[i] && ',' !in targets[i];
    assert forall i :: 0 <= i < |names| ==> '\n' !in names[i] && ',' !in names[i];
    assert "," == [','];
    hide *;
    PrintedIsLaidOut(text, revision, targets, names);
    JoinKeepsOut(targets, ',', '\n');
    JoinKeepsOut(names, ',', '\n');
    SplitOfJoin(targets, ',');
    SplitOfJoin(names, ',');
    MatchLaidOut(text, revision, Join(targets, ","), Join(names, ","), |PrintInventory(revision, targets, names)|);
  }

  /** What is printed from good sections reads back as the same revision, section order and bodies. */
  lemma PrintThenParse(revision: string, targets: seq<string>, ss: seq<Section>)
    requires GoodRevision(revision) && GoodTargets(targets) && GoodSections(ss)
    ensures Parse(Print(revision, targets, ss), targets) == Ok(Notice(revision, ss))
  {
    var names := Names(ss);
    var inventory := PrintInventory(revision, targets, names);
    var text := Print(revision, targets, ss);
    GoodParts(ss);
    assert text == inventory + PrintSections(ss);
    hide *;
    PrefixOccurs(inventory, PrintSections(ss));
    PrintedInventoryMatches(text, revision, targets, names);
    ReadPrintedSections(text, |inventory|, ss);
    BlankEnd(text);
    ParseAll(text, targets, Inventory(revision, Join(targets, ","), Join(names, ","), |inventory|), ss, |text|);
  }

  lemma BlankEnd(text: string)
    ensures IsBlank(text[|text|..])
  {
  }

  /** What parses prints to a text that parses the same. */
  lemma ParsedIsGoodAgain(text: string, expected: seq<string>)
    ensures Parse(text, expected).Ok? ==>
      var n := Parse(text, expected).value;
      && GoodRevision(n.revision) && GoodSections(n.sections)
      && (GoodTargets(expected) ==> Parse(Print(n.revision, expected, n.sections), expected) == Ok(n))
  {
    hide *;
    if Parse(text, expected).Ok? {
      var n := Parse(text, expected).value;
      ParsedIsGood(text, expected);
      if GoodTargets(expected) {
        PrintThenParse(n.revision, expected, n.sections);
      }
    }
  }

  lemma GoodParts(ss: seq<Section>)
    requires GoodSections(ss)
    ensures ss != [] && Names(ss)[0] == "webrtc" && "webrtc" != ""
    ensures forall i :: 0 <= i < |ss| ==> GoodName(Names(ss)[i]) && IsFenced(ss[i].value) && !IsBlank(ss[i].value)
  {
    hide IsFenced, IsBlank, GoodName;
    assert forall i :: 0 <= i < |ss| ==> GoodSection(ss[i]);
  }

  lemma JoinStartsWith(names: seq<string>)
    requires names != [] && names[0] != ""
    ensures Join(names, ",") != ""
  {
  }

  /** A printed file reads back unchanged exactly when its sections are good: WebRTC first, names distinct
      and free of commas and newlines, bodies not blank and closed by their own fence. */
  lemma PrintThenParseIff(revision: string, targets: seq<string>, ss: seq<Section>)
    requires GoodRevision(revision) && GoodTargets(targets)
    ensures Parse(Print(revision, targets, ss), targets) == Ok(Notice(revision, ss)) <==> GoodSections(ss)
  {
    if GoodSections(ss) {
      PrintThenParse(revision, targets, ss);
    }
    if Parse(Print(revision, targets, ss), targets) == Ok(Notice(revision, ss)) {
      ParsedIsGood(Print(revision, targets, ss), targets);
    }
  }

  // ---------------------------------------------------------------- what is accepted

  /** After a section one newline is passed over. */
  function AfterSection(text: string, next: nat): nat {
    if next < |text| && text[next] == '\n' then next + 1 else next
  }

  /** The sections stand in the text one after the other, from `cursor` up to `end`. */
  ghost predicate LaidSections(text: string, cursor: nat, ss: seq<Section>, end: nat)
    decreases |ss|
  {
    && cursor <= |text|
    && if ss == [] then end == cursor
       else OccursAt(text, SectionText(ss[0]), cursor)
            && LaidSections(text, AfterSection(text, cursor + |SectionText(ss[0])|), ss[1..], end)
  }

  ghost predicate Readable(s: Section) {
    IsFenced(s.value) && !IsBlank(s.value)
  }

  /** A section is read exactly where it stands. */
  lemma ReadSectionIff(text: string, cursor: nat, s: Section, next: nat)
    requires cursor <= |text|
    ensures ReadSection(text, cursor, s.key) == ReadOk(s, next) <==>
            Readable(s) && OccursAt(text, SectionText(s), cursor) &&
            next == AfterSection(text, cursor + |SectionText(s)|)
  {
    if Readable(s) && OccursAt(text, SectionText(s), cursor) {
      ReadPrintedSection(text, cursor, s);
    }
    if ReadSection(text, cursor, s.key) == ReadOk(s, next) {
      ReadSectionIsGood(text, cursor, s.key);
      ReadIsThere(text, cursor, s, next);
    }
  }

  lemma ReadIsThere(text: string, cursor: nat, s: Section, next: nat)
    requires cursor <= |text| && ReadSection(text, cursor, s.key) == ReadOk(s, next)
    ensures OccursAt(text, SectionText(s), cursor) && next == AfterSection(text, cursor + |SectionText(s)|)
  {
    var opening, fence := SectionOpening(s.key), Fence();
    var start := cursor + |opening|;
    var end := IndexOf(text, fence, start);
    assert s.value == text[start..end] && OccursAt(text, fence, end) && OccursAt(text, opening, cursor);
    hide SectionOpening, Fence, IndexOf, ReadSection, IsBlank;
    PiecesOccur(text, opening, s.value, fence, cursor);
    assert |SectionText(s)| == |opening| + |s.value| + |fence|;
  }

  lemma PiecesOccur(text: string, a: string, b: string, c: string, at: nat)
    requires OccursAt(text, a, at) && OccursAt(text, b, at + |a|) && OccursAt(text, c, at + |a| + |b|)
    ensures OccursAt(text, a + (b + c), at)
  {
    assert text[at..at + |a + (b + c)|] == a + (b + c);
  }

  ghost predicate AllReadable(ss: seq<Section>) {
    forall i :: 0 <= i < |ss| ==> Readable(ss[i])
  }

  /** From the cursor on these sections are read, up to `end`. */
  ghost predicate AreRead(text: string, cursor: nat, ss: seq<Section>, end: nat) {
    cursor <= |text| && ReadSections(text, cursor, Names(ss)) == Ok((ss, end))
  }

  /** Sections in a row are read exactly where they stand. */
  lemma {:induction false} ReadSectionsIff(text: string, cursor: nat, ss: seq<Section>, end: nat)
    requires cursor <= |text|
    ensures AreRead(text, cursor, ss, end) <==> LaidSections(text, cursor, ss, end) && AllReadable(ss)
    decreases |ss|
  {
    hide *;
    if ss == [] {
      NoneAreRead(text, cursor, ss, end);
    } else {
      var next := AfterSection(text, cursor + |SectionText(ss[0])|);
      var one := ReadSection(text, cursor, ss[0].key);
      if next <= |text| {
        ReadSectionsIff(text, next, ss[1..], end);
      }
      LaidStep(text, cursor, ss, end, next);
      ReadableStep(ss);
      AreReadStep(text, cursor, ss, end);
      ReadSectionIff(text, cursor, ss[0], next);
      if one.ReadOk? {
        ReadSectionIff(text, cursor, ss[0], one.cursor);
      }
      LaidInside(text, next, ss[1..], end);
    }
  }

  lemma NoneAreRead(text: string, cursor: nat, ss: seq<Section>, end: nat)
    requires ss == [] && cursor <= |text|
    ensures AreRead(text, cursor, ss, end) <==> LaidSections(text, cursor, ss, end) && AllReadable(ss)
  {
    assert Names(ss) == [];
  }

  lemma LaidInside(text: string, cursor: nat, ss: seq<Section>, end: nat)
    ensures LaidSections(text, cursor, ss, end) ==> cursor <= |text|
    ensures AreRead(text, cursor, ss, end) ==> cursor <= |text|
  {
  }

  lemma AreReadStep(text: string, cursor: nat, ss: seq<Section>, end: nat)
    requires ss != [] && cursor <= |text|
    ensures var one := ReadSection(text, cursor, ss[0].key);
            AreRead(text, cursor, ss, end) <==>
              one.ReadOk? && one == ReadOk(ss[0], one.cursor) && AreRead(text, one.cursor, ss[1..], end)
  {
    var one := ReadSection(text, cursor, ss[0].key);
    hide ReadSection, ReadSections, Names;
    NamesTail(ss);
    ReadStep(text, cursor, Names(ss), one);
    if one.ReadOk? {
      var more := ReadSections(text, one.cursor, Names(ss)[1..]);
      if more.Ok? {
        ConsSame(one.section, more.value.0, ss);
      }
    }
  }

  lemma ConsSame(x: Section, rest: seq<Section>, ss: seq<Section>)
    requires ss != []
    ensures [x] + rest == ss <==> x == ss[0] && rest == ss[1..]
  {
    assert ([x] + rest)[1..] == rest;
  }

  lemma LaidStep(text: string, cursor: nat, ss: seq<Section>, end: nat, next: nat)
    requires ss != [] && cursor <= |text| && next == AfterSection(text, cursor + |SectionText(ss[0])|)
    ensures LaidSections(text, cursor, ss, end) <==>
            OccursAt(text, SectionText(ss[0]), cursor) && LaidSections(text, next, ss[1..], end)
  {
    hide AfterSection, SectionText, OccursAt;
  }

  lemma ReadableStep(ss: seq<Section>)
    requires ss != []
    ensures AllReadable(ss) <==> Readable(ss[0]) && AllReadable(ss[1..])
  {
    hide Readable;
    assert forall i :: 0 < i < |ss| ==> ss[i] == ss[1..][i - 1];
  }

  lemma ReadStep(text: string, cursor: nat, names: seq<string>, one: Read)
    requires names != [] && cursor <= |text| && one == ReadSection(text, cursor, names[0])
    ensures one.ReadOk? ==> one.cursor <= |text|
    ensures ReadSections(text, cursor, names).Ok? <==>
            one.ReadOk? && ReadSections(text, one.cursor, names[1..]).Ok?
    ensures ReadSections(text, cursor, names).Ok? ==>
              var more := ReadSections(text, one.cursor, names[1..]).value;
              ReadSections(text, cursor, names).value == ([one.section] + more.0, more.1)
  {
    hide ReadSection;
  }

  /** The text begins with the inventory of the revision, the expected targets and the section names, then has the
      sections, and nothing but white space after them. */
  ghost predicate IsFileOf(text: string, expected: seq<string>, n: Notice) {
    var inventory := PrintInventory(n.revision, expected, Names(n.sections));
    && OccursAt(text, inventory, 0)
    && EndsBlank(text, |inventory|, n.sections)
  }

  ghost predicate EndsBlank(text: string, cursor: nat, ss: seq<Section>) {
    exists end: nat :: LaidSections(text, cursor, ss, end) && end <= |text| && IsBlank(text[end..])
  }

  /** Exactly what the parser accepts: files of a good revision, good targets and good sections. */
  lemma ParseIff(text: string, expected: seq<string>, n: Notice)
    ensures Parse(text, expected) == Ok(n) <==>
            GoodRevision(n.revision) && GoodTargets(expected) && GoodSections(n.sections) && IsFileOf(text, expected, n)
  {
    hide *;
    if Parse(text, expected) == Ok(n) {
      ParsedIsGood(text, expected);
      ParsedIsFile(text, expected, n);
    }
    if GoodRevision(n.revision) && GoodTargets(expected) && GoodSections(n.sections) && IsFileOf(text, expected, n) {
      FileParses(text, expected, n);
    }
  }

  lemma FileParses(text: string, expected: seq<string>, n: Notice)
    requires GoodRevision(n.revision) && GoodTargets(expected) && GoodSections(n.sections)
    requires IsFileOf(text, expected, n)
    ensures Parse(text, expected) == Ok(n)
  {
    var ss, names := n.sections, Names(n.sections);
    var inventory := PrintInventory(n.revision, expected, names);
    var end: nat :| LaidSections(text, |inventory|, ss, end) && end <= |text| && IsBlank(text[end..]);
    assert |inventory| <= |text|;
    GoodParts(ss);
    assert AllReadable(ss);
    hide PrintInventory, GoodRevision, GoodTargets, LaidSections, AllReadable, IsBlank, IsFenced, GoodName;
    PrintedInventoryMatches(text, n.revision, expected, names);
    ReadSectionsIff(text, |inventory|, ss, end);
    ParseAll(text, expected, Inventory(n.revision, Join(expected, ","), Join(names, ","), |inventory|), ss, end);
  }

  lemma ParseAll(text: string, expected: seq<string>, inventory: Inventory, ss: seq<Section>, end: nat)
    requires MatchInventory(text) == Some(inventory) && Split(inventory.targets, ',') == expected
    requires Split(inventory.libraries, ',') == Names(ss) && GoodSections(ss)
    requires inventory.end <= |text| && ReadSections(text, inventory.end, Names(ss)) == Ok((ss, end))
    requires end <= |text| && IsBlank(text[end..])
    ensures Parse(text, expected) == Ok(Notice(inventory.revision, ss))
  {
    hide MatchInventory, Split, ReadSections, GoodSection, IsBlank;
  }

  lemma ParsedIsFile(text: string, expected: seq<string>, n: Notice)
    requires Parse(text, expected) == Ok(n)
    ensures GoodTargets(expected) && IsFileOf(text, expected, n)
  {
    var inventory := MatchInventory(text).value;
    var libraries := Split(inventory.libraries, ',');
    var end := ReadSections(text, inventory.end, libraries).value.1;
    assert Names(n.sections) == libraries;
    assert IsBlank(text[end..]) && Split(inventory.targets, ',') == expected && inventory.revision == n.revision;
    assert ReadSections(text, inventory.end, libraries) == Ok((n.sections, end)) && end <= |text|;
    hide Parse, MatchInventory, IsBlank, Split, ReadSections, PrintInventory, LaidSections, Join;
    ReadSectionsIff(text, inventory.end, n.sections, end);
    InventoryIsThere(text);
    TargetsAreGood(inventory.targets, expected);
  }

  lemma TargetsAreGood(targets: string, expected: seq<string>)
    requires expected == Split(targets, ',') && targets != "" && '\n' !in targets
    ensures GoodTargets(expected)
  {
    SplitKeepsOut(targets, ',', '\n');
    JoinOfSplit(targets, ',');
    assert "," == [','];
    hide Join;
  }

  /** What is matched is a printed inventory. */
  lemma InventoryIsThere(text: string)
    requires MatchInventory(text).Some?
    ensures var i := MatchInventory(text).value;
      && i.targets != "" && '\n' !in i.targets
      && OccursAt(text, PrintInventory(i.revision, Split(i.targets, ','), Split(i.libraries, ',')), 0)
      && i.end == |PrintInventory(i.revision, Split(i.targets, ','), Split(i.libraries, ','))|
  {
    var i := MatchInventory(text).value;
    MatchIsLaidOut(text);
    JoinOfSplit(i.targets, ',');
    JoinOfSplit(i.libraries, ',');
    assert "," == [','];
    hide MatchInventory, Join, Split, Opening, TargetsMark, LibrariesMark, Closing;
    LaidOutIsPrinted(text, i.revision, i.targets, i.libraries, i.end);
  }

  lemma MatchIsLaidOut(text: string)
    requires MatchInventory(text).Some?
    ensures var i := MatchInventory(text).value;
      i.targets != "" && '\n' !in i.targets && LaidOut(text, i.revision, i.targets, i.libraries, i.end)
  {
    hide Opening, TargetsMark, LibrariesMark, Closing, LineEnd, IsHex;
  }

  lemma LaidOutIsPrinted(text: string, revision: string, t: string, l: string, end: nat)
    requires LaidOut(text, revision, t, l, end)
    ensures var all := Opening() + (revision + (TargetsMark() + (t + (LibrariesMark() + (l + Closing())))));
      OccursAt(text, all, 0) && end == |all|
  {
    hide Opening, TargetsMark, LibrariesMark, Closing, OccursAt;
    var targetsAt := |Opening()| + 40 + |TargetsMark()|;
    var librariesAt := targetsAt + |t| + |LibrariesMark()|;
    TwoOccur(text, l, Closing(), librariesAt);
    var e := l + Closing();
    TwoOccur(text, LibrariesMark(), e, targetsAt + |t|);
    var d := LibrariesMark() + e;
    TwoOccur(text, t, d, targetsAt);
    var c := t + d;
    TwoOccur(text, TargetsMark(), c, |Opening()| + 40);
    var b := TargetsMark() + c;
    TwoOccur(text, revision, b, |Opening()|);
    TwoOccur(text, Opening(), revision + b, 0);
  }

  lemma TwoOccur(text: string, a: string, b: string, at: nat)
    requires OccursAt(text, a, at) && OccursAt(text, b, at + |a|)
    ensures OccursAt(text, a + b, at)
  {
    assert text[at..at + |a + b|] == a + b;
  }

  // ---------------------------------------------------------------- merging

  datatype MergeError =
    | TooFewInputs
    | BadInput(error: ParseError)
    | RevisionMismatch
    | Conflict(library: string)
    | MissingWebrtc

  /** The dictionary's entry for a name. */
  function Find(ss: seq<Section>, name: string): (r: Option<Section>)
    ensures r.Some? ==> r.value in ss && r.value.key == name
    ensures r.None? ==> !HasKey(ss, name)
  {
    if ss == [] then None
    else if ss[0].key == name then Some(ss[0])
    else
      var r := Find(ss[1..], name);
      assert r.None? ==> forall i :: 0 < i < |ss| ==> ss[i] == ss[1..][i - 1];
      r
  }

  /** One section enters the dictionary: a known name must bring the same body. */
  function AddSection(merged: seq<Section>, s: Section): Result<seq<Section>, MergeError> {
    var existing := Find(merged, s.key);
    if existing.None? then Ok(merged + [s])
    else if existing.value.value != s.value then Err(Conflict(s.key))
    else Ok(merged)
  }

  function AddSections(merged: seq<Section>, ss: seq<Section>): Result<seq<Section>, MergeError> {
    if ss == [] then Ok(merged)
    else
      var init := AddSections(merged, ss[..|ss| - 1]);
      if init.Err? then init else AddSection(init.value, ss[|ss| - 1])
  }

  /** The revision and the dictionary after some inputs. */
  function MergeInputs(inputs: seq<string>, expected: seq<string>): Result<(Option<string>, seq<Section>), MergeError> {
    if inputs == [] then Ok((None, []))
    else
      var before := MergeInputs(inputs[..|inputs| - 1], expected);
      if before.Err? then before
      else MergeStep(before.value.0, before.value.1, Parse(inputs[|inputs| - 1], expected))
  }

  /** One input enters the merge. */
  function MergeStep(revision: Option<string>, merged: seq<Section>, current: Result<Notice, ParseError>)
    : Result<(Option<string>, seq<Section>), MergeError>
  {
    if current.Err? then Err(BadInput(current.error))
    else if revision.Some? && revision.value != current.value.revision then Err(RevisionMismatch)
    else
      var more := AddSections(merged, current.value.sections);
      if more.Err? then Err(more.error) else Ok((Some(current.value.revision), more.value))
  }

  function Others(ss: seq<Section>): seq<Section> {
    if ss == [] then []
    else if ss[0].key == "webrtc" then Others(ss[1..])
    else [ss[0]] + Others(ss[1..])
  }

  /** WebRTC first, the others by name. */
  function Ordered(webrtc: Section, ss: seq<Section>): seq<Section> {
    [webrtc] + Sort(Others(ss))
  }

  /** `merge_notices`: the text it writes, or its error. */
  function Merge(inputs: seq<string>, expected: seq<string>): Result<string, MergeError> {
    if |inputs| < 2 then Err(TooFewInputs)
    else
      var merged := MergeInputs(inputs, expected);
      if merged.Err? then Err(merged.error)
      else
        var webrtc := Find(merged.value.1, "webrtc");
        if webrtc.None? || merged.value.0.None? then Err(MissingWebrtc)
        else Ok(Print(merged.value.0.value, expected, Ordered(webrtc.value, merged.value.1)))
  }

  // ---------------------------------------------------------------- what a merge holds

  ghost predicate Compatible(xs: seq<Section>, ys: seq<Section>) {
    forall x, y :: x in xs && y in ys && x.key == y.key ==> x == y
  }

  /** Both inputs parse, have one revision, and agree on the libraries they share. */
  ghost predicate AgreePair(t: string, u: string, expected: seq<string>) {
    && Parse(t, expected).Ok? && Parse(u, expected).Ok?
    && Parse(t, expected).value.revision == Parse(u, expected).value.revision
    && Compatible(Parse(t, expected).value.sections, Parse(u, expected).value.sections)
  }

  ghost predicate Agree(inputs: seq<string>, expected: seq<string>) {
    forall t, u :: t in inputs && u in inputs ==> AgreePair(t, u, expected)
  }

  /** The input has this section. */
  ghost predicate Brings(t: string, expected: seq<string>, x: Section) {
    Parse(t, expected).Ok? && x in Parse(t, expected).value.sections
  }

  ghost predicate InUnion(inputs: seq<string>, expected: seq<string>, x: Section) {
    exists t :: t in inputs && Brings(t, expected, x)
  }

  lemma FindOnly(ss: seq<Section>, x: Section)
    requires DistinctKeys(ss) && x in ss
    ensures Find(ss, x.key) == Some(x)
  {
    var r := Find(ss, x.key);
    var i :| 0 <= i < |ss| && ss[i] == x;
    assert r.Some?;
    var j :| 0 <= j < |ss| && ss[j] == r.value;
    SameKeySameIndex(ss, i, j);
  }

  lemma AddSectionHolds(merged: seq<Section>, s: Section)
    requires DistinctKeys(merged)
    ensures AddSection(merged, s).Ok? <==> Compatible(merged, [s])
    ensures AddSection(merged, s).Ok? ==> DistinctKeys(AddSection(merged, s).value)
    ensures AddSection(merged, s).Ok? ==> forall x :: x in AddSection(merged, s).value <==> x in merged || x == s
  {
    var existing := Find(merged, s.key);
    if existing.Some? {
      assert existing.value in merged && s in [s];
      forall x | x in merged && x.key == s.key
        ensures x == existing.value
      {
        FindOnly(merged, x);
      }
      assert existing.value.value == s.value ==> existing.value == s;
    } else {
      assert forall i :: 0 <= i < |merged| ==> merged[i].key != s.key;
    }
  }

  lemma {:induction false} AddSectionsHold(merged: seq<Section>, ss: seq<Section>)
    requires DistinctKeys(merged) && DistinctKeys(ss)
    ensures AddSections(merged, ss).Ok? <==> Compatible(merged, ss)
    ensures AddSections(merged, ss).Ok? ==> DistinctKeys(AddSections(merged, ss).value)
    ensures AddSections(merged, ss).Ok? ==> forall x :: x in AddSections(merged, ss).value <==> x in merged || x in ss
    decreases |ss|
  {
    if ss != [] {
      var init, last := ss[..|ss| - 1], ss[|ss| - 1];
      InitOf(ss, init, last);
      hide DistinctKeys, AddSection, AddSections, Compatible;
      AddSectionsHold(merged, init);
      AddSectionsSnoc(merged, init, last);
      var r := AddSections(merged, init);
      CompatibleSnoc(merged, init, last);
      if r.Ok? {
        AddSectionHolds(r.value, last);
        CompatibleWithSum(merged, init, r.value, last);
      }
    }
  }

  lemma InitOf(ss: seq<Section>, init: seq<Section>, last: Section)
    requires ss != [] && init == ss[..|ss| - 1] && last == ss[|ss| - 1] && DistinctKeys(ss)
    ensures ss == init + [last] && DistinctKeys(init) && forall x :: x in init ==> x.key != last.key
    ensures forall x :: x in ss <==> x in init || x == last
  {
  }

  lemma CompatibleSnoc(xs: seq<Section>, init: seq<Section>, last: Section)
    ensures Compatible(xs, init + [last]) <==> Compatible(xs, init) && Compatible(xs, [last])
  {
    assert forall y :: y in init + [last] <==> y in init || y in [last];
  }

  lemma CompatibleWithSum(xs: seq<Section>, ys: seq<Section>, sum: seq<Section>, last: Section)
    requires (forall x :: x in sum <==> x in xs || x in ys) && forall y :: y in ys ==> y.key != last.key
    ensures Compatible(sum, [last]) <==> Compatible(xs, [last])
  {
  }

  lemma AddSectionsSnoc(merged: seq<Section>, init: seq<Section>, last: Section)
    ensures AddSections(merged, init + [last]) ==
            var r := AddSections(merged, init); if r.Err? then r else AddSection(r.value, last)
  {
    assert (init + [last])[..|init|] == init;
  }

  lemma ParsedDistinct(text: string, expected: seq<string>)
    requires Parse(text, expected).Ok?
    ensures DistinctKeys(Parse(text, expected).value.sections) && Parse(text, expected).value.sections != []
  {
    ParsedIsGood(text, expected);
    var ss := Parse(text, expected).value.sections;
    hide Parse;
    assert forall i, j :: 0 <= i < j < |ss| ==> Names(ss)[i] != Names(ss)[j];
  }

  /** The dictionary holds exactly the union of the inputs, which all have this revision. */
  ghost predicate Holds(inputs: seq<string>, expected: seq<string>, revision: Option<string>, merged: seq<Section>) {
    && DistinctKeys(merged)
    && (forall x :: x in merged <==> InUnion(inputs, expected, x))
    && (inputs == [] <==> revision.None?)
    && (forall t :: t in inputs ==> Parse(t, expected).Ok? && revision == Some(Parse(t, expected).value.revision))
  }

  lemma InUnionSnoc(init: seq<string>, last: string, expected: seq<string>, x: Section)
    ensures InUnion(init + [last], expected, x) <==> InUnion(init, expected, x) || Brings(last, expected, x)
  {
    hide Brings;
    if InUnion(init, expected, x) {
      var t :| t in init && Brings(t, expected, x);
      assert t in init + [last];
    }
    if Brings(last, expected, x) {
      assert last in init + [last];
    }
  }

  lemma BringsIs(t: string, expected: seq<string>)
    requires Parse(t, expected).Ok?
    ensures forall x :: x in Parse(t, expected).value.sections <==> Brings(t, expected, x)
  {
    hide Parse;
  }

  lemma SnocHolds(init: seq<string>, last: string, expected: seq<string>, revision: Option<string>,
                  merged: seq<Section>, out: seq<Section>)
    requires Holds(init, expected, revision, merged) && Parse(last, expected).Ok?
    requires var n := Parse(last, expected).value;
             (revision.None? || revision.value == n.revision) && AddSections(merged, n.sections) == Ok(out)
    ensures Holds(init + [last], expected, Some(Parse(last, expected).value.revision), out)
  {
    var n := Parse(last, expected).value;
    DictionaryIs(init, expected, revision, merged);
    hide *;
    ParsedDistinct(last, expected);
    AddSectionsHold(merged, n.sections);
    BringsIs(last, expected);
    SnocUnion(init, last, expected, merged, n.sections, out);
    SnocRevision(init, last, expected, revision, merged, out);
  }

  lemma DictionaryIs(inputs: seq<string>, expected: seq<string>, revision: Option<string>, merged: seq<Section>)
    requires Holds(inputs, expected, revision, merged)
    ensures DistinctKeys(merged) && forall x :: x in merged <==> InUnion(inputs, expected, x)
  {
    hide InUnion, Parse, DistinctKeys;
  }

  lemma SnocRevision(init: seq<string>, last: string, expected: seq<string>, revision: Option<string>,
                     merged: seq<Section>, out: seq<Section>)
    requires Holds(init, expected, revision, merged) && Parse(last, expected).Ok?
    requires revision.None? || revision.value == Parse(last, expected).value.revision
    requires DistinctKeys(out) && forall x :: x in out <==> InUnion(init + [last], expected, x)
    ensures Holds(init + [last], expected, Some(Parse(last, expected).value.revision), out)
  {
    hide InUnion, Parse, DistinctKeys;
    assert forall t :: t in init + [last] <==> t in init || t == last;
  }

  lemma SnocUnion(init: seq<string>, last: string, expected: seq<string>, merged: seq<Section>, added: seq<Section>,
                  out: seq<Section>)
    requires forall x :: x in merged <==> InUnion(init, expected, x)
    requires forall x :: x in added <==> Brings(last, expected, x)
    requires forall x :: x in out <==> x in merged || x in added
    ensures forall x :: x in out <==> InUnion(init + [last], expected, x)
  {
    hide *;
    forall x
      ensures x in out <==> InUnion(init + [last], expected, x)
    {
      InUnionSnoc(init, last, expected, x);
    }
  }

  lemma UnionMember(inputs: seq<string>, expected: seq<string>, t: string, x: Section)
    requires t in inputs && Parse(t, expected).Ok? && x in Parse(t, expected).value.sections
    ensures InUnion(inputs, expected, x)
  {
    assert Brings(t, expected, x);
  }

  /** Inputs agree when they all match one dictionary with distinct keys. */
  lemma HoldsAgree(inputs: seq<string>, expected: seq<string>, revision: Option<string>, merged: seq<Section>)
    requires Holds(inputs, expected, revision, merged)
    ensures Agree(inputs, expected)
  {
    hide Parse;
    forall t, u | t in inputs && u in inputs
      ensures AgreePair(t, u, expected)
    {
      forall x, y | x in Parse(t, expected).value.sections && y in Parse(u, expected).value.sections && x.key == y.key
        ensures x == y
      {
        UnionMember(inputs, expected, t, x);
        UnionMember(inputs, expected, u, y);
        FindOnly(merged, x);
        FindOnly(merged, y);
      }
    }
  }

  /** Inputs that agree never make the merge fail. */
  lemma AgreeAdds(init: seq<string>, last: string, expected: seq<string>, revision: Option<string>,
                  merged: seq<Section>)
    requires Holds(init, expected, revision, merged) && Agree(init + [last], expected)
    ensures Parse(last, expected).Ok?
    ensures var n := Parse(last, expected).value;
            (revision.None? || revision.value == n.revision) && AddSections(merged, n.sections).Ok?
  {
    var all := init + [last];
    assert last in all && AgreePair(last, last, expected);
    ParsedDistinct(last, expected);
    var n := Parse(last, expected).value;
    AddSectionsHold(merged, n.sections);
    hide Parse, AddSections;
    if revision.Some? {
      assert init[0] in init && init[0] in all && AgreePair(init[0], last, expected);
    }
    forall x, y | x in merged && y in n.sections && x.key == y.key
      ensures x == y
    {
      assert InUnion(init, expected, x);
      var t :| t in init && Brings(t, expected, x);
      assert t in all && AgreePair(t, last, expected);
    }
  }

  lemma AgreeInit(init: seq<string>, last: string, expected: seq<string>)
    requires Agree(init + [last], expected)
    ensures Agree(init, expected)
  {
    hide AgreePair;
    assert forall t :: t in init ==> t in init + [last];
  }

  /** One unfolding of `MergeInputs`. */
  lemma MergeInputsSnoc(init: seq<string>, last: string, expected: seq<string>)
    ensures var before, current := MergeInputs(init, expected), Parse(last, expected);
            var after := MergeInputs(init + [last], expected);
            after.Ok? <==>
              && before.Ok? && current.Ok?
              && (before.value.0.None? || before.value.0.value == current.value.revision)
              && AddSections(before.value.1, current.value.sections).Ok?
    ensures var before, current := MergeInputs(init, expected), Parse(last, expected);
            MergeInputs(init + [last], expected).Ok? ==>
              MergeInputs(init + [last], expected).value
                  == (Some(current.value.revision), AddSections(before.value.1, current.value.sections).value)
  {
    hide Parse, AddSections;
    assert (init + [last])[..|init|] == init;
  }

  /** The merge of some inputs succeeds exactly when they agree, and then holds exactly their union. */
  lemma {:induction false} MergeInputsHold(inputs: seq<string>, expected: seq<string>)
    ensures MergeInputs(inputs, expected).Ok? <==> Agree(inputs, expected)
    ensures MergeInputs(inputs, expected).Ok? ==>
              Holds(inputs, expected, MergeInputs(inputs, expected).value.0, MergeInputs(inputs, expected).value.1)
    decreases |inputs|
  {
    if inputs != [] {
      var init, last := inputs[..|inputs| - 1], inputs[|inputs| - 1];
      hide *;
      assert inputs == init + [last];
      MergeInputsHold(init, expected);
      MergeInputsSnoc(init, last, expected);
      var before := MergeInputs(init, expected);
      if Agree(inputs, expected) {
        AgreeInit(init, last, expected);
        AgreeAdds(init, last, expected, before.value.0, before.value.1);
      }
      if MergeInputs(inputs, expected).Ok? {
        var out := MergeInputs(inputs, expected).value;
        SnocHolds(init, last, expected, before.value.0, before.value.1, out.1);
        HoldsAgree(inputs, expected, out.0, out.1);
      }
    }
  }

  // ---------------------------------------------------------------- the merged text

  lemma {:induction false} OthersHold(ss: seq<Section>)
    ensures forall x :: x in Others(ss) <==> x in ss && x.key != "webrtc"
    ensures DistinctKeys(ss) ==> DistinctKeys(Others(ss))
  {
    if ss != [] {
      var rest := ss[1..];
      OthersHold(rest);
      assert forall x :: x in ss <==> x == ss[0] || x in rest;
      if DistinctKeys(ss) {
        assert DistinctKeys(rest);
        var o := Others(rest);
        forall i | 0 <= i < |o|
          ensures o[i].key != ss[0].key
        {
          assert o[i] in o;
          var j :| 0 <= j < |rest| && rest[j] == o[i];
          assert ss[0].key != ss[j + 1].key;
        }
      }
    }
  }

  /** Dictionaries with the same content are written in the same order. */
  lemma OrderedSame(webrtc: Section, xs: seq<Section>, ys: seq<Section>)
    requires DistinctKeys(xs) && DistinctKeys(ys) && forall x :: x in xs <==> x in ys
    ensures Ordered(webrtc, xs) == Ordered(webrtc, ys)
  {
    OthersHold(xs);
    OthersHold(ys);
    hide Others;
    SortOfSameElements(Others(xs), Others(ys));
  }

  lemma OrderedHolds(webrtc: Section, ss: seq<Section>)
    requires DistinctKeys(ss) && webrtc in ss && webrtc.key == "webrtc"
    ensures forall x :: x in Ordered(webrtc, ss) <==> x in ss
    ensures DistinctKeys(Ordered(webrtc, ss)) && Ordered(webrtc, ss)[0] == webrtc
  {
    OthersHold(ss);
    var o := Sort(Others(ss));
    SortSorts(Others(ss));
    SortedDistinct(o);
    hide Others, Sort;
    forall x: Section
      ensures x in o <==> x in Others(ss)
    {
      assert x in multiset(o) <==> x in multiset(Others(ss));
    }
    forall x | x in ss && x.key == "webrtc"
      ensures x == webrtc
    {
      FindOnly(ss, x);
      FindOnly(ss, webrtc);
    }
    assert forall x :: x in [webrtc] + o <==> x == webrtc || x in o;
    assert forall i :: 0 <= i < |o| ==> o[i] in o;
  }

  lemma OrderedAscends(webrtc: Section, ss: seq<Section>)
    requires DistinctKeys(ss)
    ensures Ascends(Ordered(webrtc, ss)[1..])
  {
    OthersHold(ss);
    SortSorts(Others(ss));
    SortedAscends(Sort(Others(ss)));
    hide Others, Sort, Ascends, Sorted, DistinctKeys;
    assert Ordered(webrtc, ss)[1..] == Sort(Others(ss));
  }

  // ---------------------------------------------------------------- what merging promises

  /** A merge succeeds exactly when there are at least two inputs and any two of them parse, have one
      revision and agree on the libraries they share. */
  lemma MergeSucceedsIff(inputs: seq<string>, expected: seq<string>)
    ensures Merge(inputs, expected).Ok? <==> |inputs| >= 2 && Agree(inputs, expected)
  {
    MergeInputsHold(inputs, expected);
    if |inputs| >= 2 && Agree(inputs, expected) {
      var (revision, merged) := MergeInputs(inputs, expected).value;
      var x := WebrtcOf(inputs, expected, revision, merged);
      FindOnly(merged, x);
    }
  }

  lemma WebrtcOf(inputs: seq<string>, expected: seq<string>, revision: Option<string>, merged: seq<Section>)
    returns (x: Section)
    requires inputs != [] && Holds(inputs, expected, revision, merged)
    ensures x in merged && x.key == "webrtc" && revision.Some?
  {
    var t := inputs[0];
    assert t in inputs;
    ParsedIsGood(t, expected);
    x := Parse(t, expected).value.sections[0];
    UnionMember(inputs, expected, t, x);
  }

  /** What a successful merge writes. */
  lemma MergeWrites(inputs: seq<string>, expected: seq<string>)
    returns (revision: string, webrtc: Section, merged: seq<Section>)
    requires Merge(inputs, expected).Ok?
    ensures Merge(inputs, expected) == Ok(Print(revision, expected, Ordered(webrtc, merged)))
    ensures Holds(inputs, expected, Some(revision), merged) && webrtc in merged && webrtc.key == "webrtc"
  {
    MergeInputsHold(inputs, expected);
    var (r, m) := MergeInputs(inputs, expected).value;
    revision, merged := r.value, m;
    webrtc := Find(merged, "webrtc").value;
  }

  lemma SameContent(xs: seq<string>, ys: seq<string>, expected: seq<string>, rx: Option<string>, ry: Option<string>,
                    mx: seq<Section>, my: seq<Section>)
    requires forall t :: t in xs <==> t in ys
    requires xs != [] && Holds(xs, expected, rx, mx) && Holds(ys, expected, ry, my)
    ensures rx == ry && forall x :: x in mx <==> x in my
  {
    hide Parse;
    assert xs[0] in xs && xs[0] in ys;
    forall x
      ensures InUnion(xs, expected, x) <==> InUnion(ys, expected, x)
    {
    }
  }

  /** The order of the inputs changes neither whether the merge succeeds nor what it writes. */
  lemma MergeOrderIndependent(xs: seq<string>, ys: seq<string>, expected: seq<string>)
    requires multiset(xs) == multiset(ys)
    ensures Merge(xs, expected).Ok? <==> Merge(ys, expected).Ok?
    ensures Merge(xs, expected).Ok? ==> Merge(ys, expected) == Merge(xs, expected)
  {
    assert |xs| == |multiset(xs)| == |ys|;
    forall t: string
      ensures t in xs <==> t in ys
    {
      assert t in multiset(xs) <==> t in multiset(ys);
    }
    MergeSucceedsIff(xs, expected);
    MergeSucceedsIff(ys, expected);
    assert Agree(xs, expected) <==> Agree(ys, expected) by {
      hide AgreePair;
    }
    if Merge(xs, expected).Ok? {
      hide Agree;
      SameInputsSameText(xs, ys, expected);
    }
  }

  lemma SameInputsSameText(xs: seq<string>, ys: seq<string>, expected: seq<string>)
    requires forall t :: t in xs <==> t in ys
    requires Merge(xs, expected).Ok? && Merge(ys, expected).Ok? && xs != []
    ensures Merge(ys, expected) == Merge(xs, expected)
  {
    hide *;
    var rx, wx, mx := MergeWrites(xs, expected);
    var ry, wy, my := MergeWrites(ys, expected);
    SameContent(xs, ys, expected, Some(rx), Some(ry), mx, my);
    HoldsDistinct(xs, expected, Some(rx), mx);
    HoldsDistinct(ys, expected, Some(ry), my);
    FindOnly(mx, wx);
    FindOnly(mx, wy);
    OrderedSame(wx, mx, my);
  }

  lemma HoldsDistinct(inputs: seq<string>, expected: seq<string>, revision: Option<string>, merged: seq<Section>)
    requires Holds(inputs, expected, revision, merged)
    ensures DistinctKeys(merged)
  {
  }

  lemma HeldIsGood(inputs: seq<string>, expected: seq<string>, revision: Option<string>, merged: seq<Section>,
                   x: Section)
    requires Holds(inputs, expected, revision, merged) && x in merged
    ensures GoodSection(x) && (revision.Some? ==> GoodRevision(revision.value))
  {
    assert InUnion(inputs, expected, x);
    var t :| t in inputs && Brings(t, expected, x);
    ParsedIsGood(t, expected);
  }

  /** The merged text parses back to the common revision and exactly the union of the inputs' sections. */
  lemma MergedParsesBack(inputs: seq<string>, expected: seq<string>) returns (n: Notice)
    requires GoodTargets(expected) && Merge(inputs, expected).Ok?
    ensures Parse(Merge(inputs, expected).value, expected) == Ok(n)
    ensures Holds(inputs, expected, Some(n.revision), n.sections)
    ensures n.sections[0].key == "webrtc" && Ascends(n.sections[1..])
  {
    var revision, webrtc, merged := MergeWrites(inputs, expected);
    var ss := Ordered(webrtc, merged);
    n := Notice(revision, ss);
    HoldsDistinct(inputs, expected, Some(revision), merged);
    OrderedHolds(webrtc, merged);
    OrderedAscends(webrtc, merged);
    HeldIsGood(inputs, expected, Some(revision), merged, webrtc);
    forall i | 0 <= i < |ss|
      ensures GoodSection(ss[i])
    {
      assert ss[i] in ss;
      HeldIsGood(inputs, expected, Some(revision), merged, ss[i]);
    }
    OrderedIsGood(ss);
    PrintThenParse(revision, expected, ss);
    SameHolds(inputs, expected, Some(revision), merged, ss);
  }

  lemma OrderedIsGood(ss: seq<Section>)
    requires ss != [] && ss[0].key == "webrtc" && DistinctKeys(ss) && forall i :: 0 <= i < |ss| ==> GoodSection(ss[i])
    ensures GoodSections(ss)
  {
    hide GoodSection;
    assert forall i, j :: 0 <= i < j < |ss| ==> ss[i].key != ss[j].key;
  }

  lemma SameHolds(inputs: seq<string>, expected: seq<string>, revision: Option<string>, xs: seq<Section>,
                  ys: seq<Section>)
    requires Holds(inputs, expected, revision, xs) && DistinctKeys(ys) && forall x :: x in xs <==> x in ys
    ensures Holds(inputs, expected, revision, ys)
  {
    hide Parse, InUnion;
  }

  /** Merging the merged text again with any of its inputs, in either order, changes nothing. */
  lemma MergeAbsorbsInputs(inputs: seq<string>, expected: seq<string>, u: string)
    requires GoodTargets(expected) && Merge(inputs, expected).Ok? && u in inputs
    ensures Merge([Merge(inputs, expected).value, u], expected) == Merge(inputs, expected)
    ensures Merge([u, Merge(inputs, expected).value], expected) == Merge(inputs, expected)
  {
    var t := Merge(inputs, expected).value;
    var n := MergedParsesBack(inputs, expected);
    hide *;
    PairHolds(inputs, expected, n, t, u);
    HoldsAgree([t, u], expected, Some(n.revision), n.sections);
    MergeSucceedsIff([t, u], expected);
    AbsorbedText(inputs, [t, u], expected, n);
    SwapPair(t, u);
    MergeOrderIndependent([t, u], [u, t], expected);
  }

  lemma SwapPair(t: string, u: string)
    ensures multiset([t, u]) == multiset([u, t])
  {
    assert [t, u] == [t] + [u] && [u, t] == [u] + [t];
  }

  lemma PairHolds(inputs: seq<string>, expected: seq<string>, n: Notice, t: string, u: string)
    requires Parse(t, expected) == Ok(n) && Holds(inputs, expected, Some(n.revision), n.sections) && u in inputs
    ensures Holds([t, u], expected, Some(n.revision), n.sections)
  {
    hide Parse;
    forall x
      ensures x in n.sections <==> InUnion([t, u], expected, x)
    {
      if x in n.sections {
        assert t in [t, u] && Brings(t, expected, x);
      }
      if Brings(u, expected, x) {
        assert InUnion(inputs, expected, x);
      }
    }
  }

  lemma AbsorbedText(inputs: seq<string>, pair: seq<string>, expected: seq<string>, n: Notice)
    requires Merge(inputs, expected).Ok? && Merge(pair, expected).Ok?
    requires Holds(inputs, expected, Some(n.revision), n.sections)
             && Holds(pair, expected, Some(n.revision), n.sections)
    requires inputs != [] && pair != []
    ensures Merge(pair, expected) == Merge(inputs, expected)
  {
    hide *;
    var rx, wx, mx := MergeWrites(inputs, expected);
    var ry, wy, my := MergeWrites(pair, expected);
    SameContent(inputs, inputs, expected, Some(rx), Some(n.revision), mx, n.sections);
    SameContent(pair, pair, expected, Some(ry), Some(n.revision), my, n.sections);
    HoldsDistinct(inputs, expected, Some(rx), mx);
    HoldsDistinct(pair, expected, Some(ry), my);
    FindOnly(mx, wx);
    FindOnly(mx, wy);
    OrderedSame(wx, mx, my);
  }

  // ---------------------------------------------------------------- writing line by line

  function InventoryLines(revision: string, targets: seq<string>, libraries: seq<string>): seq<string> {
    [TitleLine(), RevisionKey() + revision, "targets=" + Join(targets, ","), "libraries=" + Join(libraries, ","),
        "-->", ""]
  }

  function SectionLines(s: Section): seq<string> {
    ["# " + s.key, "```", s.value, "```", ""]
  }

  function AllSectionLines(ss: seq<Section>): seq<string> {
    if ss == [] then [] else SectionLines(ss[0]) + AllSectionLines(ss[1..])
  }

  lemma JoinFive(a: string, b: string, c: string, d: string, e: string)
    ensures Join([a, b, c, d, e], "\n") == a + "\n" + (b + "\n" + (c + "\n" + (d + "\n" + e)))
  {
    JoinStep([a, b, c, d, e], "\n");
    assert [a, b, c, d, e][1..] == [b, c, d, e];
    JoinStep([b, c, d, e], "\n");
    assert [b, c, d, e][1..] == [c, d, e];
    JoinStep([c, d, e], "\n");
    assert [c, d, e][1..] == [d, e];
    JoinStep([d, e], "\n");
    assert [d, e][1..] == [e];
  }

  lemma SectionLinesPrint(s: Section)
    ensures Join(SectionLines(s), "\n") == SectionText(s)
  {
    JoinFive("# " + s.key, "```", s.value, "```", "");
    assert SectionText(s) == ("# " + s.key + "\n```\n") + (s.value + "\n```\n");
    assert "# " + s.key + "\n" + ("```" + "\n" + (s.value + "\n" + ("```" + "\n" + "")))
           == ("# " + s.key + "\n```\n") + (s.value + "\n```\n");
  }

  lemma InventoryLinesPrint(revision: string, targets: seq<string>, libraries: seq<string>)
    ensures Join(InventoryLines(revision, targets, libraries), "\n") + "\n"
            == PrintInventory(revision, targets, libraries)
  {
    var t, l := Join(targets, ","), Join(libraries, ",");
    var a, b, c, d := TitleLine(), RevisionKey() + revision, "targets=" + t, "libraries=" + l;
    JoinStep([a, b, c, d, "-->", ""], "\n");
    assert [a, b, c, d, "-->", ""][1..] == [b, c, d, "-->", ""];
    JoinFive(b, c, d, "-->", "");
    InventoryText(revision, t, l);
  }

  lemma InventoryText(revision: string, t: string, l: string)
    ensures TitleLine() + "\n" + (RevisionKey() + revision + "\n"
            + ("targets=" + t + "\n" + ("libraries=" + l + "\n" + ("-->" + "\n" + "")))) + "\n"
         == Opening() + (revision + (TargetsMark() + (t + (LibrariesMark() + (l + Closing())))))
  {
    hide TitleLine, RevisionKey;
  }

  lemma AllSectionLinesCons(ss: seq<Section>)
    requires ss != []
    ensures AllSectionLines(ss) != [] && SectionLines(ss[0]) != []
    ensures |ss| == 1 ==> AllSectionLines(ss) == SectionLines(ss[0])
    ensures |ss| > 1 ==> AllSectionLines(ss) == SectionLines(ss[0]) + AllSectionLines(ss[1..])
  {
  }

  lemma {:induction false} AllSectionLinesPrint(ss: seq<Section>)
    requires ss != []
    ensures AllSectionLines(ss) != [] && Join(AllSectionLines(ss), "\n") == PrintSections(ss)
  {
    AllSectionLinesCons(ss);
    hide *;
    SectionLinesPrint(ss[0]);
    PrintSectionsStep(ss);
    if |ss| > 1 {
      AllSectionLinesPrint(ss[1..]);
      JoinAppend(SectionLines(ss[0]), AllSectionLines(ss[1..]), "\n");
      Reassociate(SectionText(ss[0]), "\n", PrintSections(ss[1..]));
    }
  }

  /** The lines, joined, are the printed file. */
  lemma LinesPrint(revision: string, targets: seq<string>, ss: seq<Section>)
    requires ss != []
    ensures Join(InventoryLines(revision, targets, Names(ss)) + AllSectionLines(ss), "\n")
            == Print(revision, targets, ss)
  {
    var head := InventoryLines(revision, targets, Names(ss));
    assert |head| == 6;
    AllSectionLinesPrint(ss);
    InventoryLinesPrint(revision, targets, Names(ss));
    hide InventoryLines, AllSectionLines, PrintInventory, PrintSections, Names, Join;
    JoinAppend(head, AllSectionLines(ss), "\n");
  }

  lemma {:induction false} AllSectionLinesSnoc(ss: seq<Section>, s: Section)
    ensures AllSectionLines(ss + [s]) == AllSectionLines(ss) + SectionLines(s)
  {
    hide SectionLines;
    if ss == [] {
      assert ([] + [s])[1..] == [];
    } else {
      assert (ss + [s])[1..] == ss[1..] + [s];
      AllSectionLinesSnoc(ss[1..], s);
      assert SectionLines(ss[0]) + (AllSectionLines(ss[1..]) + SectionLines(s))
             == SectionLines(ss[0]) + AllSectionLines(ss[1..]) + SectionLines(s);
    }
  }

  /** A failed merge stays failed. */
  lemma {:induction false} MergeInputsStops(inputs: seq<string>, expected: seq<string>, k: nat)
    requires k <= |inputs| && MergeInputs(inputs[..k], expected).Err?
    ensures MergeInputs(inputs, expected) == MergeInputs(inputs[..k], expected)
    decreases |inputs|
  {
    if k < |inputs| {
      hide Parse, AddSections;
      assert inputs[..|inputs| - 1][..k] == inputs[..k];
      MergeInputsStops(inputs[..|inputs| - 1], expected, k);
    } else {
      assert inputs[..k] == inputs;
    }
  }

  lemma {:induction false} AddSectionsStops(merged: seq<Section>, ss: seq<Section>, k: nat)
    requires k <= |ss| && AddSections(merged, ss[..k]).Err?
    ensures AddSections(merged, ss) == AddSections(merged, ss[..k])
    decreases |ss|
  {
    if k < |ss| {
      hide AddSection;
      assert ss[..|ss| - 1][..k] == ss[..k];
      AddSectionsStops(merged, ss[..|ss| - 1], k);
    } else {
      assert ss[..k] == ss;
    }
  }

  /** The inner loop of the merge. */
  method MergeInto(merged: seq<Section>, ss: seq<Section>) returns (r: Result<seq<Section>, MergeError>)
    ensures r == AddSections(merged, ss)
  {
    var out := merged;
    var i := 0;
    assert ss[..0] == [];
    while i < |ss|
      invariant 0 <= i <= |ss| && AddSections(merged, ss[..i]) == Ok(out)
    {
      assert ss[..i + 1] == ss[..i] + [ss[i]];
      AddSectionsSnoc(merged, ss[..i], ss[i]);
      hide AddSections;
      var existing := Find(out, ss[i].key);
      if existing.Some? && existing.value.value != ss[i].value {
        AddSectionsStops(merged, ss, i + 1);
        return Err(Conflict(ss[i].key));
      }
      if existing.None? {
        out := out + [ss[i]];
      }
      i := i + 1;
    }
    assert ss[..|ss|] == ss;
    r := Ok(out);
  }

  /** One round of the merge loop. */
  method MergeOne(revision: Option<string>, merged: seq<Section>, text: string, expected: seq<string>)
    returns (r: Result<(Option<string>, seq<Section>), MergeError>)
    ensures r == MergeStep(revision, merged, Parse(text, expected))
  {
    hide Parse, AddSections;
    var current := ParseNotices(text, expected);
    if current.Err? { return Err(BadInput(current.error)); }
    if revision.Some? && revision.value != current.value.revision { return Err(RevisionMismatch); }
    var more := MergeInto(merged, current.value.sections);
    r := if more.Err? then Err(more.error) else Ok((Some(current.value.revision), more.value));
  }

  lemma MergeInputsStep(inputs: seq<string>, expected: seq<string>, i: nat)
    requires i < |inputs|
    ensures MergeInputs(inputs[..i], expected).Ok? ==>
              MergeInputs(inputs[..i + 1], expected) ==
              MergeStep(MergeInputs(inputs[..i], expected).value.0, MergeInputs(inputs[..i], expected).value.1,
                  Parse(inputs[i], expected))
  {
    hide Parse, MergeStep;
    var more := inputs[..i + 1];
    assert more[..|more| - 1] == inputs[..i];
  }

  /** The outer loop of the merge. */
  method MergeTexts(inputs: seq<string>, expected: seq<string>)
    returns (r: Result<(Option<string>, seq<Section>), MergeError>)
    ensures r == MergeInputs(inputs, expected)
  {
    var revision: Option<string> := None;
    var merged: seq<Section> := [];
    var i := 0;
    assert MergeInputs(inputs[..0], expected) == Ok((None, []));
    hide MergeInputs, MergeStep, Parse;
    while i < |inputs|
      invariant 0 <= i <= |inputs| && MergeInputs(inputs[..i], expected) == Ok((revision, merged))
    {
      MergeInputsStep(inputs, expected, i);
      r := MergeOne(revision, merged, inputs[i], expected);
      if r.Err? {
        MergeInputsStops(inputs, expected, i + 1);
        return;
      }
      revision, merged := r.value.0, r.value.1;
      i := i + 1;
    }
    assert inputs[..|inputs|] == inputs;
    r := Ok((revision, merged));
  }

  /** `merge_notices` as the source runs it; it returns the text it would write. */
  method MergeNotices(inputs: seq<string>, expected: seq<string>) returns (r: Result<string, MergeError>)
    ensures r == Merge(inputs, expected)
  {
    if |inputs| < 2 { return Err(TooFewInputs); }
    var merged := MergeTexts(inputs, expected);
    if merged.Err? { return Err(merged.error); }
    var webrtc := Find(merged.value.1, "webrtc");
    if webrtc.None? || merged.value.0.None? { return Err(MissingWebrtc); }
    var text := WriteLines(merged.value.0.value, expected, Ordered(webrtc.value, merged.value.1));
    r := Ok(text);
  }

  /** Writes the inventory and one block of lines per section. */
  method WriteLines(revision: string, targets: seq<string>, ss: seq<Section>) returns (text: string)
    requires ss != []
    ensures text == Print(revision, targets, ss)
  {
    var lines := InventoryLines(revision, targets, Names(ss));
    ghost var head := lines;
    hide InventoryLines, AllSectionLines, Print;
    assert AllSectionLines(ss[..0]) == [] by {
      NoSectionLines(ss);
    }
    for i := 0 to |ss|
      invariant lines == head + AllSectionLines(ss[..i])
    {
      AllSectionLinesSnoc(ss[..i], ss[i]);
      assert ss[..i + 1] == ss[..i] + [ss[i]];
      lines := lines + SectionLines(ss[i]);
    }
    assert ss[..|ss|] == ss;
    LinesPrint(revision, targets, ss);
    text := Join(lines, "\n");
  }

  lemma NoSectionLines(ss: seq<Section>)
    ensures AllSectionLines(ss[..0]) == []
  {
  }

  // ---------------------------------------------------------------- rendering license files

  /** A path of the license mapping: a regular file's text, or something else. */
  datatype LicenseFile = NotAFile | LicenseText(text: string)

  datatype RenderError = UnknownLibrary(library: string) | NotRegular(library: string) | EmptyLicense(library: string)

  function EscapeHtmlChar(c: char): string {
    if c == '&' then "&amp;"
    else if c == '<' then "&lt;"
    else if c == '>' then "&gt;"
    else if c == '\"' then "&quot;"
    else if c == '\'' then "&#x27;"
    else [c]
  }

  /** `html.escape(text, quote=True)`. */
  function EscapeHtml(s: string): string {
    if s == "" then "" else EscapeHtmlChar(s[0]) + EscapeHtml(s[1..])
  }

  /** `str.rstrip("\n")`. */
  function StripNewlines(s: string): string {
    if s != "" && s[|s| - 1] == '\n' then StripNewlines(s[..|s| - 1]) else s
  }

  /** The texts of one section's files. */
  function RenderTexts(library: string, files: seq<LicenseFile>): (r: Result<seq<string>, RenderError>)
    ensures r.Ok? ==> |r.value| == |files|
  {
    if files == [] then Ok([])
    else if files[0].NotAFile? then Err(NotRegular(library))
    else if IsBlank(files[0].text) then Err(EmptyLicense(library))
    else
      var rest := RenderTexts(library, files[1..]);
      if rest.Err? then rest else Ok([StripNewlines(EscapeHtml(files[0].text))] + rest.value)
  }

  function RenderSections(libraries: seq<Keyed<seq<LicenseFile>>>): (r: Result<seq<Section>, RenderError>)
    ensures r.Ok? ==> |r.value| == |libraries|
    ensures r.Ok? ==> forall i :: 0 <= i < |libraries| ==> r.value[i].key == libraries[i].key
  {
    if libraries == [] then Ok([])
    else
      var texts := RenderTexts(libraries[0].key, libraries[0].value);
      if texts.Err? then Err(texts.error)
      else
        var rest := RenderSections(libraries[1..]);
        if rest.Err? then rest else Ok([Keyed(libraries[0].key, Join(texts.value, "\n"))] + rest.value)
  }

  /** The linked libraries other than WebRTC that have license files. */
  function Licensed(mapping: map<string, seq<LicenseFile>>, libraries: seq<string>): (r: seq<Keyed<seq<LicenseFile>>>)
    requires forall l :: l in libraries ==> l in mapping
    ensures forall i :: 0 <= i < |r| ==> r[i].key in libraries && r[i].key != "webrtc" && r[i].value != []
  {
    if libraries == [] then []
    else
      var rest := Licensed(mapping, libraries[1..]);
      if libraries[0] == "webrtc" || mapping[libraries[0]] == [] then rest
      else [Keyed(libraries[0], mapping[libraries[0]])] + rest
  }

  function FirstUnknown(mapping: map<string, seq<LicenseFile>>, libraries: seq<string>): (r: Option<string>)
    ensures r.None? <==> forall l :: l in libraries ==> l in mapping
  {
    if libraries == [] then None
    else if libraries[0] !in mapping then Some(libraries[0])
    else FirstUnknown(mapping, libraries[1..])
  }

  /** The sections in printing order: WebRTC always, from its mapping or its own license; then by name. */
  function RenderOrder(mapping: map<string, seq<LicenseFile>>, libraries: seq<string>,
                       license: LicenseFile): seq<Keyed<seq<LicenseFile>>>
    requires forall l :: l in libraries ==> l in mapping
  {
    [Keyed("webrtc", if "webrtc" in libraries && mapping["webrtc"] != [] then mapping["webrtc"] else [license])]
    + Sort(Licensed(mapping, libraries))
  }

  /** `render_notices`; `targets` is already sorted. */
  function Render(revision: string, targets: seq<string>, mapping: map<string, seq<LicenseFile>>,
                  libraries: seq<string>,
                  license: LicenseFile): Result<string, RenderError>
  {
    var unknown := FirstUnknown(mapping, libraries);
    if unknown.Some? then Err(UnknownLibrary(unknown.value))
    else
      var sections := RenderSections(RenderOrder(mapping, libraries, license));
      if sections.Err? then Err(sections.error) else Ok(Print(revision, targets, sections.value))
  }

  // ---------------------------------------------------------------- what is rendered

  /** Reading character references. */
  function Unescape(s: string): string {
    if s == "" then ""
    else if "&amp;" <= s then "&" + Unescape(s[5..])
    else if "&lt;" <= s then "<" + Unescape(s[4..])
    else if "&gt;" <= s then ">" + Unescape(s[4..])
    else if "&quot;" <= s then "\"" + Unescape(s[6..])
    else if "&#x27;" <= s then "'" + Unescape(s[6..])
    else [s[0]] + Unescape(s[1..])
  }

  ghost predicate IsMarkup(c: char) {
    c == '<' || c == '>' || c == '\"' || c == '\''
  }

  /** Escaped text holds none of the characters that mean something in markup but to start a reference, and reading its
      references gives the text back. */
  lemma {:induction false} EscapedIs(s: string)
    ensures forall i :: 0 <= i < |EscapeHtml(s)| ==> !IsMarkup(EscapeHtml(s)[i])
    ensures Unescape(EscapeHtml(s)) == s
  {
    if s != "" {
      EscapedIs(s[1..]);
      NoMarkup(s[0]);
      var e, rest := EscapeHtmlChar(s[0]), EscapeHtml(s[1..]);
      assert EscapeHtml(s) == e + rest;
      UnescapeStep(s[0], rest);
      hide EscapeHtml, EscapeHtmlChar, Unescape, IsMarkup;
      assert [s[0]] + s[1..] == s;
    }
  }

  lemma NoMarkup(c: char)
    ensures forall i :: 0 <= i < |EscapeHtmlChar(c)| ==> !IsMarkup(EscapeHtmlChar(c)[i])
  {
  }

  lemma UnescapeStep(c: char, rest: string)
    ensures Unescape(EscapeHtmlChar(c) + rest) == [c] + Unescape(rest)
  {
    if c == '&' {
      ReadReference("&amp;", rest);
    } else if c == '<' {
      ReadReference("&lt;", rest);
    } else if c == '>' {
      ReadReference("&gt;", rest);
    } else if c == '\"' {
      ReadReference("&quot;", rest);
    } else if c == '\'' {
      ReadReference("&#x27;", rest);
    } else {
      ReadPlain(c, rest);
    }
  }

  lemma ReadPlain(c: char, rest: string)
    requires c != '&'
    ensures Unescape([c] + rest) == [c] + Unescape(rest)
  {
    var s := [c] + rest;
    assert s[1..] == rest && s[0] == c;
    assert "&amp;"[0] == "&lt;"[0] == "&gt;"[0] == "&quot;"[0] == "&#x27;"[0] == '&';
  }

  lemma ReadReference(e: string, rest: string)
    requires e in {"&amp;", "&lt;", "&gt;", "&quot;", "&#x27;"}
    ensures Unescape(e + rest)
            == (if e == "&amp;" then "&" else if e == "&lt;" then "<" else if e == "&gt;" then ">"
                else if e == "&quot;" then "\"" else "'") + Unescape(rest)
  {
    var s := e + rest;
    assert s[|e|..] == rest && s[1] == e[1];
    assert e <= s;
  }

  /** `r` is the text without the newlines at its end. */
  ghost predicate Stripped(s: string, r: string) {
    r <= s && (forall i :: |r| <= i < |s| ==> s[i] == '\n') && (r != "" ==> r[|r| - 1] != '\n')
  }

  lemma {:induction false} StripIs(s: string)
    ensures Stripped(s, StripNewlines(s))
  {
    if s != "" && s[|s| - 1] == '\n' {
      StripIs(s[..|s| - 1]);
    }
  }

  /** A license is a regular file that is not blank. */
  ghost predicate GoodFile(file: LicenseFile) {
    file.LicenseText? && !IsBlank(file.text)
  }

  ghost predicate GoodFiles(files: seq<LicenseFile>) {
    forall k :: 0 <= k < |files| ==> GoodFile(files[k])
  }

  ghost predicate FirstBad(files: seq<LicenseFile>, k: int) {
    0 <= k < |files| && !GoodFile(files[k]) && forall j :: 0 <= j < k ==> GoodFile(files[j])
  }

  /** The escaped license texts, each without its last newlines, joined by newlines. */
  ghost predicate IsBody(files: seq<LicenseFile>, body: string) {
    exists texts :: IsBodyOf(files, texts) && body == Join(texts, "\n")
  }

  ghost predicate IsBodyOf(files: seq<LicenseFile>, texts: seq<string>) {
    |texts| == |files| && forall k :: 0 <= k < |files| ==>
      files[k].LicenseText? && Stripped(EscapeHtml(files[k].text), texts[k])
  }

  lemma {:induction false} RenderTextsIff(library: string, files: seq<LicenseFile>)
    ensures RenderTexts(library, files).Ok? <==> GoodFiles(files)
    ensures RenderTexts(library, files).Ok? ==> IsBodyOf(files, RenderTexts(library, files).value)
    ensures RenderTexts(library, files).Err? ==>
              exists k :: FirstBad(files, k) && RenderTexts(library, files).error
                  == if files[k].NotAFile? then NotRegular(library) else EmptyLicense(library)
  {
    if files != [] {
      var rest := files[1..];
      RenderTextsIff(library, rest);
      if files[0].LicenseText? {
        StripIs(EscapeHtml(files[0].text));
      }
      hide Stripped, EscapeHtml, StripNewlines, IsBlank;
      if !GoodFile(files[0]) {
        assert FirstBad(files, 0);
      } else if RenderTexts(library, rest).Err? {
        var k :| FirstBad(rest, k) && RenderTexts(library, rest).error
                   == if rest[k].NotAFile? then NotRegular(library) else EmptyLicense(library);
        assert FirstBad(files, k + 1);
      }
    }
  }

  lemma {:induction false} RenderSectionsIff(libraries: seq<Keyed<seq<LicenseFile>>>)
    ensures RenderSections(libraries).Ok? <==> forall i :: 0 <= i < |libraries| ==> GoodFiles(libraries[i].value)
    ensures RenderSections(libraries).Ok? ==>
              forall i :: 0 <= i < |libraries| ==> IsBody(libraries[i].value, RenderSections(libraries).value[i].value)
  {
    if libraries != [] {
      var rest := libraries[1..];
      RenderTextsIff(libraries[0].key, libraries[0].value);
      RenderSectionsIff(rest);
      hide GoodFiles, IsBodyOf, RenderTexts;
      assert forall i :: 0 < i < |libraries| ==> libraries[i] == rest[i - 1];
      assert forall i :: 0 <= i < |rest| ==> rest[i] == libraries[i + 1];
    }
  }

  /** WebRTC is always printed; of the linked libraries those that have license files. */
  ghost predicate IsPrinted(mapping: map<string, seq<LicenseFile>>, libraries: seq<string>, name: string) {
    name == "webrtc" || (name in libraries && name in mapping && mapping[name] != [])
  }

  /** The files of a printed section: WebRTC falls back to its own license. */
  ghost function FilesOf(mapping: map<string, seq<LicenseFile>>, libraries: seq<string>, license: LicenseFile,
                         name: string): seq<LicenseFile> {
    if name in libraries && name in mapping && mapping[name] != [] then mapping[name] else [license]
  }

  lemma {:induction false} LicensedAre(mapping: map<string, seq<LicenseFile>>, libraries: seq<string>)
    requires forall l :: l in libraries ==> l in mapping
    ensures forall i :: 0 <= i < |Licensed(mapping, libraries)| ==>
              var x := Licensed(mapping, libraries)[i]; x.key in libraries && x.value == mapping[x.key]
    ensures forall l :: l in libraries && l != "webrtc" && mapping[l] != [] ==>
              Keyed(l, mapping[l]) in Licensed(mapping, libraries)
  {
    if libraries != [] {
      LicensedAre(mapping, libraries[1..]);
    }
  }

  /** The order of the sections, their names and their files. */
  lemma RenderOrderIs(mapping: map<string, seq<LicenseFile>>, libraries: seq<string>, license: LicenseFile)
    requires (forall l :: l in libraries ==> l in mapping) && DistinctNames(libraries)
    ensures var order := RenderOrder(mapping, libraries, license);
      && order != [] && order[0].key == "webrtc" && Ascends(order[1..])
      && (forall i :: 0 <= i < |order| ==>
            IsPrinted(mapping, libraries, order[i].key)
            && order[i].value == FilesOf(mapping, libraries, license, order[i].key))
      && forall name :: IsPrinted(mapping, libraries, name) ==> HasKey(order, name)
  {
    var licensed := Licensed(mapping, libraries);
    var sorted := Sort(licensed);
    LicensedDistinct(mapping, libraries);
    LicensedAre(mapping, libraries);
    SortSorts(licensed);
    SortedAscends(sorted);
    assert forall i :: 0 <= i < |licensed| ==> licensed[i].value != [];
    forall x
      ensures x in sorted <==> x in licensed
    {
      SortElements(licensed, x);
    }
    var order := RenderOrder(mapping, libraries, license);
    assert order == [order[0]] + sorted && order[0] == Keyed("webrtc", FilesOf(mapping, libraries, license, "webrtc"));
    assert order[1..] == sorted;
    hide *;
    OrderHas(mapping, libraries, license, licensed, sorted, order);
  }

  lemma OrderHas(mapping: map<string, seq<LicenseFile>>, libraries: seq<string>, license: LicenseFile,
                 licensed: seq<Keyed<seq<LicenseFile>>>, sorted: seq<Keyed<seq<LicenseFile>>>,
                 order: seq<Keyed<seq<LicenseFile>>>)
    requires forall l :: l in libraries ==> l in mapping
    requires forall i :: 0 <= i < |licensed| ==>
               licensed[i].value != [] && licensed[i].key in libraries && licensed[i].value == mapping[licensed[i].key]
    requires forall l :: l in libraries && l != "webrtc" && mapping[l] != [] ==> Keyed(l, mapping[l]) in licensed
    requires forall x :: x in sorted <==> x in licensed
    requires order == [Keyed("webrtc", FilesOf(mapping, libraries, license, "webrtc"))] + sorted
    ensures forall i :: 0 <= i < |order| ==>
              IsPrinted(mapping, libraries, order[i].key)
              && order[i].value == FilesOf(mapping, libraries, license, order[i].key)
    ensures forall name :: IsPrinted(mapping, libraries, name) ==> HasKey(order, name)
  {
    forall i | 0 < i < |order|
      ensures IsPrinted(mapping, libraries, order[i].key)
              && order[i].value == FilesOf(mapping, libraries, license, order[i].key)
    {
      assert order[i] == sorted[i - 1] && sorted[i - 1] in sorted;
      FromLicensed(mapping, libraries, licensed, order[i]);
    }
    forall name | IsPrinted(mapping, libraries, name)
      ensures HasKey(order, name)
    {
      if name == "webrtc" {
        assert order[0].key == name;
      } else {
        var x := Keyed(name, mapping[name]);
        assert x in sorted;
        var j :| 0 <= j < |sorted| && sorted[j] == x;
        assert order[j + 1] == x;
      }
    }
  }

  lemma FromLicensed(mapping: map<string, seq<LicenseFile>>, libraries: seq<string>,
                     licensed: seq<Keyed<seq<LicenseFile>>>, x: Keyed<seq<LicenseFile>>)
    requires (forall l :: l in libraries ==> l in mapping) && x in licensed
    requires forall i :: 0 <= i < |licensed| ==>
               licensed[i].value != [] && licensed[i].key in libraries && licensed[i].value == mapping[licensed[i].key]
    ensures x.key in libraries && x.value == mapping[x.key] != []
  {
  }

  /** The rendered sections: WebRTC first, the others in ascending order; exactly the printed libraries; each body made
      of the files of its library. */
  ghost predicate RendersAs(mapping: map<string, seq<LicenseFile>>, libraries: seq<string>, license: LicenseFile,
                            ss: seq<Section>) {
    && ss != [] && ss[0].key == "webrtc" && Ascends(ss[1..])
    && (forall name :: IsPrinted(mapping, libraries, name) <==> HasKey(ss, name))
    && (forall i :: 0 <= i < |ss| ==> IsBody(FilesOf(mapping, libraries, license, ss[i].key), ss[i].value))
  }

  /** Rendering succeeds exactly when every linked library is in the mapping and every file of a printed library is a
      regular file that is not blank; it then prints these sections, and otherwise an unknown library is reported before
      any file. */
  lemma RenderIff(revision: string, targets: seq<string>, mapping: map<string, seq<LicenseFile>>,
                  libraries: seq<string>, license: LicenseFile) returns (ss: seq<Section>)
    requires DistinctNames(libraries)
    ensures var r := Render(revision, targets, mapping, libraries, license);
      && (r.Ok? <==>
            && (forall l :: l in libraries ==> l in mapping)
            && forall name :: IsPrinted(mapping, libraries, name) ==>
                 GoodFiles(FilesOf(mapping, libraries, license, name)))
      && (r.Ok? ==> r == Ok(Print(revision, targets, ss)) && RendersAs(mapping, libraries, license, ss))
      && (r.Err? ==> (r.error.UnknownLibrary? <==> exists l :: l in libraries && l !in mapping))
  {
    ss := [];
    if forall l :: l in libraries ==> l in mapping {
      var order := RenderOrder(mapping, libraries, license);
      RenderOrderIs(mapping, libraries, license);
      RenderSectionsIff(order);
      RenderSectionsErrors(order);
      RenderStep(revision, targets, mapping, libraries, license);
      hide *;
      AllFilesGood(mapping, libraries, license, order);
      if RenderSections(order).Ok? {
        ss := RenderSections(order).value;
        RenderedAs(mapping, libraries, license, order, ss);
      }
    } else {
      hide RenderSections, RenderOrder, Print;
    }
  }

  lemma RenderStep(revision: string, targets: seq<string>, mapping: map<string, seq<LicenseFile>>,
                   libraries: seq<string>, license: LicenseFile)
    requires forall l :: l in libraries ==> l in mapping
    ensures var sections := RenderSections(RenderOrder(mapping, libraries, license));
            Render(revision, targets, mapping, libraries, license)
            == if sections.Err? then Err(sections.error) else Ok(Print(revision, targets, sections.value))
  {
    hide RenderSections, RenderOrder, Print;
  }

  lemma {:induction false} RenderSectionsErrors(libraries: seq<Keyed<seq<LicenseFile>>>)
    ensures RenderSections(libraries).Err? ==> !RenderSections(libraries).error.UnknownLibrary?
  {
    if libraries != [] {
      RenderTextsIff(libraries[0].key, libraries[0].value);
      RenderSectionsErrors(libraries[1..]);
      hide GoodFiles, IsBodyOf, RenderTexts;
    }
  }

  lemma AllFilesGood(mapping: map<string, seq<LicenseFile>>, libraries: seq<string>, license: LicenseFile,
                     order: seq<Keyed<seq<LicenseFile>>>)
    requires forall i :: 0 <= i < |order| ==>
               IsPrinted(mapping, libraries, order[i].key)
               && order[i].value == FilesOf(mapping, libraries, license, order[i].key)
    requires forall name :: IsPrinted(mapping, libraries, name) ==> HasKey(order, name)
    ensures (forall i :: 0 <= i < |order| ==> GoodFiles(order[i].value)) <==>
            forall name :: IsPrinted(mapping, libraries, name) ==> GoodFiles(FilesOf(mapping, libraries, license, name))
  {
    hide IsPrinted, FilesOf, GoodFiles;
  }

  lemma RenderedAs(mapping: map<string, seq<LicenseFile>>, libraries: seq<string>, license: LicenseFile,
                   order: seq<Keyed<seq<LicenseFile>>>, ss: seq<Section>)
    requires |ss| == |order| > 0 && order[0].key == "webrtc" && Ascends(order[1..])
    requires forall i :: 0 <= i < |ss| ==> ss[i].key == order[i].key && IsBody(order[i].value, ss[i].value)
    requires forall i :: 0 <= i < |order| ==>
               IsPrinted(mapping, libraries, order[i].key)
               && order[i].value == FilesOf(mapping, libraries, license, order[i].key)
    requires forall name :: IsPrinted(mapping, libraries, name) ==> HasKey(order, name)
    ensures RendersAs(mapping, libraries, license, ss)
  {
    hide IsPrinted, FilesOf, IsBody, Before;
    forall i | 0 <= i < |ss| - 1
      ensures ss[1..][i].key == order[1..][i].key
    {
    }
  }

  lemma {:induction false} EscapeKeepsInk(s: string)
    requires !IsBlank(s)
    ensures !IsBlank(EscapeHtml(s))
    decreases |s|
  {
    var head, rest := EscapeHtmlChar(s[0]), EscapeHtml(s[1..]);
    assert EscapeHtml(s) == head + rest;
    if !IsPySpace(s[0]) {
      assert !IsPySpace(head[0]) && EscapeHtml(s)[0] == head[0];
    } else {
      assert s == [s[0]] + s[1..];
      EscapeKeepsInk(s[1..]);
      var i :| 0 <= i < |rest| && !IsPySpace(rest[i]);
      assert EscapeHtml(s)[|head| + i] == rest[i];
    }
  }

  lemma {:induction false} StripKeepsInk(s: string)
    requires !IsBlank(s)
    ensures !IsBlank(StripNewlines(s))
    decreases |s|
  {
    if s[|s| - 1] == '\n' {
      var init := s[..|s| - 1];
      var i :| 0 <= i < |s| && !IsPySpace(s[i]);
      assert init[i] == s[i];
      StripKeepsInk(init);
    }
  }

  lemma RenderedTextsHaveInk(library: string, files: seq<LicenseFile>)
    requires RenderTexts(library, files).Ok? && files != []
    ensures !IsBlank(Join(RenderTexts(library, files).value, "\n"))
  {
    var texts := RenderTexts(library, files).value;
    EscapeKeepsInk(files[0].text);
    StripKeepsInk(EscapeHtml(files[0].text));
    assert texts[0] == StripNewlines(EscapeHtml(files[0].text));
    hide RenderTexts, EscapeHtml, StripNewlines, IsPySpace;
    var i :| 0 <= i < |texts[0]| && !IsPySpace(texts[0][i]);
    assert Join(texts, "\n")[i] == texts[0][i];
  }

  lemma {:induction false} RenderedSectionsHaveInk(libraries: seq<Keyed<seq<LicenseFile>>>)
    requires RenderSections(libraries).Ok? && forall i :: 0 <= i < |libraries| ==> libraries[i].value != []
    ensures forall i :: 0 <= i < |libraries| ==> !IsBlank(RenderSections(libraries).value[i].value)
  {
    if libraries != [] {
      RenderedTextsHaveInk(libraries[0].key, libraries[0].value);
      RenderedSectionsHaveInk(libraries[1..]);
    }
  }

  lemma {:induction false} LicensedDistinct(mapping: map<string, seq<LicenseFile>>, libraries: seq<string>)
    requires (forall l :: l in libraries ==> l in mapping) && DistinctNames(libraries)
    ensures DistinctKeys(Licensed(mapping, libraries))
  {
    if libraries != [] {
      var rest := libraries[1..];
      LicensedDistinct(mapping, rest);
      assert libraries[0] !in rest by {
        forall i | 0 <= i < |rest|
          ensures rest[i] != libraries[0]
        {
          assert libraries[0] != libraries[i + 1];
        }
      }
    }
  }

  lemma RenderOrderIsGood(mapping: map<string, seq<LicenseFile>>, libraries: seq<string>, license: LicenseFile)
    requires (forall l :: l in libraries ==> l in mapping) && DistinctNames(libraries)
    ensures var order := RenderOrder(mapping, libraries, license);
            order[0].key == "webrtc" && DistinctKeys(order) && forall i :: 0 <= i < |order| ==> order[i].value != []
  {
    var licensed := Licensed(mapping, libraries);
    var sorted := Sort(licensed);
    LicensedDistinct(mapping, libraries);
    SortSorts(licensed);
    SortedDistinct(sorted);
    hide *;
    SortedFromLicensed(licensed, sorted);
    OrderIsGood(mapping, libraries, license, sorted);
  }

  lemma SortedFromLicensed(licensed: seq<Keyed<seq<LicenseFile>>>, sorted: seq<Keyed<seq<LicenseFile>>>)
    requires multiset(sorted) == multiset(licensed)
    requires forall i :: 0 <= i < |licensed| ==> licensed[i].value != [] && licensed[i].key != "webrtc"
    ensures forall i :: 0 <= i < |sorted| ==> sorted[i].value != [] && sorted[i].key != "webrtc"
  {
    forall i | 0 <= i < |sorted|
      ensures sorted[i].value != [] && sorted[i].key != "webrtc"
    {
      assert sorted[i] in multiset(licensed);
      var j :| 0 <= j < |licensed| && licensed[j] == sorted[i];
    }
  }

  lemma OrderIsGood(mapping: map<string, seq<LicenseFile>>, libraries: seq<string>, license: LicenseFile,
                    sorted: seq<Keyed<seq<LicenseFile>>>)
    requires forall l :: l in libraries ==> l in mapping
    requires sorted == Sort(Licensed(mapping, libraries)) && DistinctKeys(sorted)
    requires forall i :: 0 <= i < |sorted| ==> sorted[i].value != [] && sorted[i].key != "webrtc"
    ensures var order := RenderOrder(mapping, libraries, license);
            order[0].key == "webrtc" && DistinctKeys(order) && forall i :: 0 <= i < |order| ==> order[i].value != []
  {
    hide Sort, Licensed;
  }

  /** A rendered file parses back to the same revision, sections and bodies exactly when every library
      name is free of commas and newlines and every rendered body is closed by its own fence; blank
      bodies and a wrong first section cannot arise. */
  lemma RenderedParsesBack(revision: string, targets: seq<string>, mapping: map<string, seq<LicenseFile>>,
                           libraries: seq<string>,
                           license: LicenseFile) returns (ss: seq<Section>)
    requires GoodRevision(revision) && GoodTargets(targets) && DistinctNames(libraries)
    requires Render(revision, targets, mapping, libraries, license).Ok?
    ensures (forall l :: l in libraries ==> l in mapping)
            && RenderSections(RenderOrder(mapping, libraries, license)) == Ok(ss)
    ensures Render(revision, targets, mapping, libraries, license) == Ok(Print(revision, targets, ss))
    ensures Parse(Print(revision, targets, ss), targets) == Ok(Notice(revision, ss))
            <==> forall i :: 0 <= i < |ss| ==> GoodName(ss[i].key) && IsFenced(ss[i].value)
  {
    var order := RenderOrder(mapping, libraries, license);
    ss := RenderSections(order).value;
    RenderOrderIsGood(mapping, libraries, license);
    RenderedSectionsHaveInk(order);
    PrintThenParseIff(revision, targets, ss);
    hide Render, RenderSections, RenderOrder, Print, Parse, IsFenced, IsBlank, GoodName;
    RenderedGood(ss, order);
  }

  lemma RenderedGood(ss: seq<Section>, order: seq<Keyed<seq<LicenseFile>>>)
    requires |ss| == |order| > 0 && order[0].key == "webrtc" && DistinctKeys(order)
    requires forall i :: 0 <= i < |ss| ==> ss[i].key == order[i].key && !IsBlank(ss[i].value)
    ensures GoodSections(ss) <==> forall i :: 0 <= i < |ss| ==> GoodName(ss[i].key) && IsFenced(ss[i].value)
  {
    hide IsFenced, IsBlank, GoodName;
    assert DistinctNames(Names(ss)) by {
      forall i, j | 0 <= i < j < |ss|
        ensures Names(ss)[i] != Names(ss)[j]
      {
        assert order[i].key != order[j].key;
      }
    }
    assert (forall i :: 0 <= i < |ss| ==> GoodSection(ss[i]))
           <==> forall i :: 0 <= i < |ss| ==> GoodName(ss[i].key) && IsFenced(ss[i].value);
  }
}
