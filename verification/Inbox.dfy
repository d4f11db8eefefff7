/** The crash-safe inbound inbox: an append-only log with replay and compaction (shared/core-lane-inbox.ts). */
module Inbox {
  import opened Results
  import opened Text
  import opened Json
  import Utf8

  datatype Entry = Entry(id: string, commandId: string, session: string, payload: string, ts: int)

  datatype DiskRecord = EntryRecord(entry: Entry) | AckRecord(id: string)

  /** The in-memory map, in insertion order. */
  type Entries = seq<Entry>

  // ---------------------------------------------------------------- the ordered map

  ghost predicate DistinctIds(es: Entries) {
    forall i, j :: 0 <= i < j < |es| ==> es[i].id != es[j].id
  }

  predicate Has(es: Entries, id: string) {
    exists i :: 0 <= i < |es| && es[i].id == id
  }

  /** `entries.set(e.id, e)`: an existing key keeps its place. */
  function Put(es: Entries, e: Entry): (r: Entries) {
    if es == [] then [e]
    else if es[0].id == e.id then [e] + es[1..]
    else [es[0]] + Put(es[1..], e)
  }

  /** `entries.delete(id)`. */
  function Drop(es: Entries, id: string): Entries {
    if es == [] then []
    else if es[0].id == id then es[1..]
    else [es[0]] + Drop(es[1..], id)
  }

  /** The entries whose id is not empty: replay skips the others. */
  function Visible(es: Entries): Entries {
    if es == [] then []
    else if es[0].id == "" then Visible(es[1..])
    else [es[0]] + Visible(es[1..])
  }

  // ---------------------------------------------------------------- the log

  function EntryJson(e: Entry): Json {
    Obj([Field("id", Str(e.id)), Field("commandId", Str(e.commandId)), Field("session", Str(e.session)),
         Field("payload", Str(e.payload)), Field("ts", Num(e.ts))])
  }

  function RecordJson(r: DiskRecord): Json {
    match r
    case EntryRecord(e) => Obj([Field("kind", Str("entry")), Field("entry", EntryJson(e))])
    case AckRecord(id) => Obj([Field("kind", Str("ack")), Field("id", Str(id))])
  }

  /** `JSON.stringify(record)`. */
  function Line(r: DiskRecord): string {
    Stringify(RecordJson(r))
  }

  function StrField(v: Json, key: string): Option<string> {
    if v.Obj? && |Lookup(v.fields, key)| == 1 && Lookup(v.fields, key)[0].Str?
    then Some(Lookup(v.fields, key)[0].text) else None
  }

  function NumField(v: Json, key: string): Option<int> {
    if v.Obj? && |Lookup(v.fields, key)| == 1 && Lookup(v.fields, key)[0].Num?
    then Some(Lookup(v.fields, key)[0].n) else None
  }

  function ReadEntry(v: Json): Option<Entry> {
    var id, commandId, session := StrField(v, "id"), StrField(v, "commandId"), StrField(v, "session");
    var payload, ts := StrField(v, "payload"), NumField(v, "ts");
    if id.Some? && commandId.Some? && session.Some? && payload.Some? && ts.Some?
    then Some(Entry(id.value, commandId.value, session.value, payload.value, ts.value)) else None
  }

  function RecordOf(v: Json): Option<DiskRecord> {
    if !v.Obj? then None
    else if StrField(v, "kind") == Some("entry") && |Lookup(v.fields, "entry")| == 1 then
      var e := ReadEntry(Lookup(v.fields, "entry")[0]);
      if e.Some? then Some(EntryRecord(e.value)) else None
    else if StrField(v, "kind") == Some("ack") && StrField(v, "id").Some? then
      Some(AckRecord(StrField(v, "id").value))
    else None
  }

  /** The record on one line, if the line is one. */
  function ReadLine(line: string): Option<DiskRecord> {
    var v := Parse(line);
    if v.Fail? then None else RecordOf(v.value)
  }

  /** What replay does with one record; records with an empty id are skipped. */
  function Apply(es: Entries, r: Option<DiskRecord>): Entries {
    match r
    case Some(EntryRecord(e)) => if e.id != "" then Put(es, e) else es
    case Some(AckRecord(id)) => if id != "" then Drop(es, id) else es
    case None => es
  }

  function Replay(lines: seq<string>): Entries {
    if lines == [] then []
    else Apply(Replay(lines[..|lines| - 1]), ReadLine(lines[|lines| - 1]))
  }

  /** What a restart reads back from the log. */
  function Recover(text: string): Entries {
    Replay(Split(text, '\n'))
  }

  /** Every line of the log is terminated. */
  predicate Complete(text: string) {
    text == "" || text[|text| - 1] == '\n'
  }

  // ---------------------------------------------------------------- lines are read back

  lemma StrFieldAt(fields: seq<Field>, key: string, i: nat)
    requires i < |fields| && fields[i].key == key
    requires forall j :: i < j < |fields| ==> fields[j].key != key
    ensures Lookup(fields, key) == [fields[i].value]
    ensures fields[i].value.Str? ==> StrField(Obj(fields), key) == Some(fields[i].value.text)
    ensures fields[i].value.Num? ==> NumField(Obj(fields), key) == Some(fields[i].value.n)
  {
    LookupAt(fields, key, i);
  }

  lemma EntryIsReadBack(e: Entry)
    ensures ReadEntry(EntryJson(e)) == Some(e)
  {
    var fs := EntryJson(e).fields;
    StrFieldAt(fs, "id", 0);
    StrFieldAt(fs, "commandId", 1);
    StrFieldAt(fs, "session", 2);
    StrFieldAt(fs, "payload", 3);
    StrFieldAt(fs, "ts", 4);
  }

  lemma RecordIsReadBack(r: DiskRecord)
    ensures RecordOf(RecordJson(r)) == Some(r)
  {
    var fs := RecordJson(r).fields;
    StrFieldAt(fs, "kind", 0);
    match r
    case EntryRecord(e) =>
      StrFieldAt(fs, "entry", 1);
      EntryIsReadBack(e);
    case AckRecord(id) =>
      StrFieldAt(fs, "id", 1);
  }

  lemma LineIsReadBack(r: DiskRecord)
    ensures ReadLine(Line(r)) == Some(r) && '\n' !in Line(r) && Line(r) != ""
  {
    ParseStringify(RecordJson(r));
    RecordIsReadBack(r);
    PrintedIsPrintable(RecordJson(r));
  }

  /** A record cut short is not a record. */
  lemma CutLineIsSkipped(r: DiskRecord, n: nat)
    requires n < |Line(r)|
    ensures ReadLine(Line(r)[..n]) == None && '\n' !in Line(r)[..n]
  {
    CutObjectFails(RecordJson(r), n);
    PrintedIsPrintable(RecordJson(r));
  }

  lemma LineOpens(r: DiskRecord)
    ensures OpensObject(Line(r), 0)
  {
    PrintedObjectStart(RecordJson(r).fields);
  }

  /** A record written right behind the remains of another one is not a record, and neither are the remains. */
  lemma GluedLineIsSkipped(t: string, r: DiskRecord)
    requires t != "" && t[0] == '{'
    ensures ReadLine(t + Line(r)) == None
  {
    LineOpens(r);
    GluedObjectFails(t, RecordJson(r));
  }

  /** Nor are remains followed by further remains. */
  lemma GluedRemainsAreSkipped(t: string, r: DiskRecord, torn: string)
    requires t != "" && t[0] == '{' && Utf8.IsCut(Line(r), torn) && torn != ""
    ensures ReadLine(t + torn) == None
  {
    var line := Line(r);
    LineOpens(r);
    var j: nat, m: nat :| Utf8.CutAt(line, torn, j, m);
    if m > 0 {
      hide Line, ReadLine;
      MarkedLineIsSkipped(t + torn);
    } else {
      assert torn == line[..j];
      if j == |line| {
        assert torn == line;
        GluedLineIsSkipped(t, r);
      } else {
        hide Parse, Stringify;
        GluedCutFails(t, RecordJson(r), j);
      }
    }
  }

  // ---------------------------------------------------------------- growing a log

  lemma ReplaySnoc(lines: seq<string>, line: string)
    ensures Replay(lines + [line]) == Apply(Replay(lines), ReadLine(line))
  {
    assert (lines + [line])[..|lines|] == lines;
  }

  lemma EmptyLineIsSkipped()
    ensures ReadLine("") == None
  {
  }

  /** How appending one line shows when the log is split. */
  lemma SplitAppend(text: string, line: string) returns (lines: seq<string>)
    requires Complete(text) && '\n' !in line
    ensures Split(text, '\n') == lines + [""]
    ensures Split(text + line, '\n') == lines + [line]
    ensures Split(text + line + "\n", '\n') == lines + [line] + [""]
  {
    SplitCons(line, "", '\n');
    assert Split("", '\n') == [""];
    assert line + ['\n'] + "" == line + "\n";
    if text == "" {
      lines := [];
      assert text + line == line;
    } else {
      var t := text[..|text| - 1];
      lines := Split(t, '\n');
      hide *;
      assert text == t + ['\n'] + "";
      assert text + line == t + ['\n'] + line;
      assert text + line + "\n" == t + ['\n'] + (line + "\n");
      SplitConcat(t, "", '\n');
      SplitConcat(t, line, '\n');
      SplitConcat(t, line + "\n", '\n');
      assert lines + ([line] + [""]) == lines + [line] + [""];
    }
  }

  /** Appending one unterminated or terminated line to a log of complete lines. */
  lemma RecoverAppend(text: string, line: string)
    requires Complete(text) && '\n' !in line
    ensures Recover(text + line) == Apply(Recover(text), ReadLine(line))
    ensures Recover(text + line + "\n") == Apply(Recover(text), ReadLine(line)) && Complete(text + line + "\n")
  {
    EmptyLineIsSkipped();
    var lines := SplitAppend(text, line);
    ReplaySnoc(lines, "");
    ReplaySnoc(lines, line);
    ReplaySnoc(lines + [line], "");
    hide ReadLine, Replay, Split;
  }

  // ---------------------------------------------------------------- cut and glued records

  /** Nor is one whose last character was cut: what is read ends with a mark, and a record ends with a brace. */
  lemma MarkedLineIsSkipped(line: string)
    requires line != "" && line[|line| - 1] == '\U{FFFD}'
    ensures ReadLine(line) == None
  {
    hide StrField, ReadEntry, Parse;
    if Parse(line).Done? && Parse(line).value.Obj? {
      ObjectEnds(line);
    }
  }

  /** The remains of a line: what is read when any number of its bytes reached the disk. */
  lemma RemainsAreOneLine(r: DiskRecord, torn: string)
    requires Utf8.IsCut(Line(r), torn)
    ensures '\n' !in torn && (torn != "" ==> torn[0] == '{')
    ensures ReadLine(torn) == if torn == Line(r) then Some(r) else None
  {
    var line := Line(r);
    LineIsReadBack(r);
    LineOpens(r);
    assert line[0] == '{';
    hide Line, ReadLine;
    var j: nat, m: nat :| Utf8.CutAt(line, torn, j, m);
    if m == 0 {
      assert torn == line[..j];
      if j < |line| {
        CutLineIsSkipped(r, j);
      }
    } else {
      MarkedLineIsSkipped(torn);
      assert torn[0] == line[0];
    }
  }

  /** The remains of a line and its newline. */
  lemma RemainsOfRecord(line: string, torn: string)
    requires Utf8.IsCut(line + "\n", torn)
    ensures torn == line + "\n" || Utf8.IsCut(line, torn)
  {
    var whole := line + "\n";
    var j: nat, m: nat :| Utf8.CutAt(whole, torn, j, m);
    assert whole[|line|] == '\n';
    if j <= |line| {
      assert whole[..j] == line[..j];
      assert j < |line| ==> whole[j] == line[j];
      assert Utf8.CutAt(line, torn, j, m);
    } else {
      assert m == 0 && whole[..j] == whole && torn == whole + "";
    }
  }

  /** A crash while a record is appended behind complete lines, with any number of its bytes on the disk, recovers
      to the state just before the record or just after it, and to the latter as soon as only the newline is
      missing. */
  lemma TornRecordRecovers(text: string, r: DiskRecord, torn: string)
    requires Complete(text) && Utf8.IsCut(Line(r) + "\n", torn)
    ensures Recover(text + torn) == if Line(r) <= torn then Apply(Recover(text), Some(r)) else Recover(text)
  {
    LineIsReadBack(r);
    var line := Line(r);
    RemainsOfRecord(line, torn);
    hide Line, ReadLine, Recover;
    if torn == line + "\n" {
      RecoverAppend(text, line);
      assert text + torn == text + line + "\n";
    } else {
      RemainsAreOneLine(r, torn);
      RemainsAreShort(r, torn);
      RecoverAppend(text, torn);
    }
  }

  lemma RemainsAreShort(r: DiskRecord, torn: string)
    requires Utf8.IsCut(Line(r), torn)
    ensures Line(r) <= torn <==> torn == Line(r)
  {
    var line := Line(r);
    RecordEnds(r);
    hide Line;
    var j: nat, m: nat :| Utf8.CutAt(line, torn, j, m);
    assert m > 0 && |line| <= |torn| ==> torn[|line| - 1] == '\U{FFFD}';
  }

  lemma RecordEnds(r: DiskRecord)
    ensures Line(r) != "" && Line(r)[|Line(r)| - 1] == '}'
  {
    ParseStringify(RecordJson(r));
    ObjectEnds(Line(r));
  }

  /** After a crash left `torn`, the remains of a record, the next record is written right behind it: it survives a
      restart exactly when nothing was left over. Otherwise both are lost. */
  lemma AppendAfterCrash(text: string, torn: string, cut: DiskRecord, r: DiskRecord)
    requires Complete(text) && Utf8.IsCut(Line(cut), torn)
    ensures Recover(text + torn + Line(r) + "\n") == if torn == "" then Apply(Recover(text), Some(r)) else Recover(text)
  {
    LineIsReadBack(r);
    RemainsAreOneLine(cut, torn);
    var line := torn + Line(r);
    assert text + torn + Line(r) + "\n" == text + line + "\n";
    if torn == "" {
      assert line == Line(r);
    } else {
      GluedLineIsSkipped(torn, r);
    }
    assert '\n' !in line;
    RecoverAppend(text, line);
  }

  // ---------------------------------------------------------------- memory against log

  lemma HasCons(e: Entry, t: Entries, id: string)
    ensures Has([e] + t, id) <==> e.id == id || Has(t, id)
  {
    var es := [e] + t;
    if Has(t, id) {
      var i :| 0 <= i < |t| && t[i].id == id;
      assert es[i + 1].id == id;
    }
    if Has(es, id) && e.id != id {
      var i :| 0 <= i < |es| && es[i].id == id;
      assert t[i - 1].id == id;
    }
    assert es[0] == e;
  }

  lemma DistinctCons(e: Entry, t: Entries)
    ensures DistinctIds([e] + t) <==> DistinctIds(t) && !Has(t, e.id)
  {
    var es := [e] + t;
    assert forall i :: 0 <= i < |t| ==> t[i] == es[i + 1];
    assert es[0] == e;
    if DistinctIds(es) {
      assert forall j :: 0 < j < |es| ==> es[0].id != es[j].id;
    }
  }

  /** One unfolding of `Put`. */
  lemma PutStep(es: Entries, e: Entry)
    requires es != []
    ensures es == [es[0]] + es[1..]
    ensures Put(es, e) == if es[0].id == e.id then [e] + es[1..] else [es[0]] + Put(es[1..], e)
  {
  }

  lemma {:induction false} PutKeepsIds(es: Entries, e: Entry)
    ensures forall id :: Has(Put(es, e), id) <==> Has(es, id) || id == e.id
    ensures DistinctIds(es) ==> DistinctIds(Put(es, e))
    ensures e in Put(es, e)
  {
    if es == [] {
      assert Put(es, e) == [e];
    } else {
      hide *;
      var h, t := es[0], es[1..];
      PutKeepsIds(t, e);
      PutStep(es, e);
      DistinctCons(h, t);
      DistinctCons(h, Put(t, e));
      DistinctCons(e, t);
      forall id
        ensures Has(es, id) <==> h.id == id || Has(t, id)
        ensures Has([h] + Put(t, e), id) <==> h.id == id || Has(Put(t, e), id)
        ensures Has([e] + t, id) <==> e.id == id || Has(t, id)
      {
        HasCons(h, t, id);
        HasCons(h, Put(t, e), id);
        HasCons(e, t, id);
      }
    }
  }

  lemma {:induction false} DropKeepsIds(es: Entries, id: string)
    requires DistinctIds(es)
    ensures DistinctIds(Drop(es, id)) && forall x :: x in Drop(es, id) <==> x in es && x.id != id
  {
    if es != [] {
      var h, t := es[0], es[1..];
      assert es == [h] + t;
      assert Drop(es, id) == if h.id == id then t else [h] + Drop(t, id);
      DistinctCons(h, t);
      DropKeepsIds(t, id);
      DistinctCons(h, Drop(t, id));
      HasMember(t, h.id);
      HasMember(Drop(t, id), h.id);
      hide Drop, DistinctIds, Has;
    }
  }

  lemma HasMember(es: Entries, id: string)
    ensures Has(es, id) <==> exists x :: x in es && x.id == id
  {
    if x :| x in es && x.id == id {
      var i :| 0 <= i < |es| && es[i] == x;
    }
    if Has(es, id) {
      var i :| 0 <= i < |es| && es[i].id == id;
      assert es[i] in es;
    }
  }

  lemma {:induction false} VisiblePut(es: Entries, e: Entry)
    ensures Visible(Put(es, e)) == if e.id != "" then Put(Visible(es), e) else Visible(es)
  {
    if es != [] {
      VisiblePut(es[1..], e);
    }
  }

  lemma {:induction false} VisibleDrop(es: Entries, id: string)
    ensures Visible(Drop(es, id)) == if id != "" then Drop(Visible(es), id) else Visible(es)
  {
    if es != [] {
      VisibleDrop(es[1..], id);
    }
  }

  lemma {:induction false} VisibleIsVisible(es: Entries)
    requires forall i :: 0 <= i < |es| ==> es[i].id != ""
    ensures Visible(es) == es
  {
    if es != [] {
      VisibleIsVisible(es[1..]);
    }
  }

  // ---------------------------------------------------------------- runs

  datatype Op = AppendOp(entry: Entry) | AckOp(id: string)

  /** The map after one operation. */
  function StepEntries(es: Entries, op: Op): Entries {
    match op
    case AppendOp(e) => Put(es, e)
    case AckOp(id) => Drop(es, id)
  }

  /** The whole log that compaction writes. */
  function Body(es: Entries): string {
    if es == [] then "" else Join(Lines(es), "\n") + "\n"
  }

  function Lines(es: Entries): (r: seq<string>)
    ensures |r| == |es|
  {
    if es == [] then [] else Lines(es[..|es| - 1]) + [Line(EntryRecord(es[|es| - 1]))]
  }

  /** The log after one operation: an unknown acknowledgement writes nothing, and acknowledging the last
      entry compacts. */
  function StepLog(text: string, es: Entries, op: Op): string {
    match op
    case AppendOp(e) => text + Line(EntryRecord(e)) + "\n"
    case AckOp(id) =>
      if !Has(es, id) then text
      else if Drop(es, id) == [] then Body([])
      else text + Line(AckRecord(id)) + "\n"
  }

  /** The log files a crash during the operation can leave. */
  ghost predicate CrashLog(text: string, es: Entries, op: Op, left: string) {
    match op
    case AppendOp(e) => IsTorn(text, EntryRecord(e), left)
    case AckOp(id) =>
      if !Has(es, id) then left == text
      else IsTorn(text, AckRecord(id), left) || left == StepLog(text, es, op)
  }

  ghost predicate IsTorn(text: string, r: DiskRecord, left: string) {
    exists torn :: Utf8.IsCut(Line(r) + "\n", torn) && left == text + torn
  }

  /** The log belongs to the map. */
  ghost predicate InStep(text: string, es: Entries) {
    Complete(text) && Recover(text) == Visible(es) && DistinctIds(es)
  }

  /** Position `i` holds the first entry with this id. */
  ghost predicate FirstAt(es: Entries, id: string, i: int) {
    0 <= i < |es| && es[i].id == id && forall j :: 0 <= j < i ==> es[j].id != id
  }

  lemma {:induction false} FindFirst(es: Entries, id: string) returns (i: nat)
    ensures Has(es, id) ==> FirstAt(es, id, i)
  {
    i := 0;
    if es != [] && es[0].id != id {
      i := FindFirst(es[1..], id);
      HasCons(es[0], es[1..], id);
      assert es == [es[0]] + es[1..];
      i := i + 1;
    }
  }

  lemma HasMeans(es: Entries, id: string)
    ensures Has(es, id) <==> exists i :: 0 <= i < |es| && es[i].id == id
  {
  }

  /** Deleting takes out the first entry with the id, and nothing else; the others keep their order. */
  lemma {:induction false} DropIs(es: Entries, id: string)
    ensures !Has(es, id) ==> Drop(es, id) == es
    ensures forall i :: FirstAt(es, id, i) ==> Drop(es, id) == es[..i] + es[i + 1..]
    ensures Has(es, id) ==> |Drop(es, id)| == |es| - 1
  {
    var at := FindFirst(es, id);
    HasMeans(es, id);
    hide Has;
    if es != [] && es[0].id != id {
      var t := es[1..];
      DropIs(t, id);
      HasMeans(t, id);
      assert es == [es[0]] + t;
      forall i | FirstAt(es, id, i)
        ensures Drop(es, id) == es[..i] + es[i + 1..]
      {
        assert FirstAt(t, id, i - 1);
        assert [es[0]] + (t[..i - 1] + t[i..]) == es[..i] + es[i + 1..];
      }
    }
  }

  /** Setting replaces the entry with the same id where it stands, and otherwise adds the new one at the end. */
  lemma {:induction false} PutIs(es: Entries, e: Entry)
    ensures !Has(es, e.id) ==> Put(es, e) == es + [e]
    ensures forall i :: FirstAt(es, e.id, i) ==> Put(es, e) == es[i := e]
  {
    HasMeans(es, e.id);
    hide Has;
    if es != [] && es[0].id != e.id {
      var t := es[1..];
      PutIs(t, e);
      HasMeans(t, e.id);
      assert es == [es[0]] + t;
      assert [es[0]] + (t + [e]) == es + [e];
      forall i | FirstAt(es, e.id, i)
        ensures Put(es, e) == es[i := e]
      {
        assert FirstAt(t, e.id, i - 1);
        assert [es[0]] + t[i - 1 := e] == es[i := e];
      }
    } else if es != [] {
      assert [e] + es[1..] == es[0 := e];
    }
  }

  lemma RecordStep(es: Entries, op: Op)
    requires DistinctIds(es)
    ensures var r := match op case AppendOp(e) => EntryRecord(e) case AckOp(id) => AckRecord(id);
            Apply(Visible(es), Some(r)) == Visible(StepEntries(es, op))
    ensures DistinctIds(StepEntries(es, op))
  {
    match op
    case AppendOp(e) =>
      VisiblePut(es, e);
      PutKeepsIds(es, e);
    case AckOp(id) =>
      VisibleDrop(es, id);
      DropKeepsIds(es, id);
  }

  /** Every operation keeps log and map in step. */
  lemma StepKeepsInStep(text: string, es: Entries, op: Op)
    requires InStep(text, es)
    ensures InStep(StepLog(text, es, op), StepEntries(es, op))
  {
    RecordStep(es, op);
    match op
    case AppendOp(e) =>
      LineIsReadBack(EntryRecord(e));
      RecoverAppend(text, Line(EntryRecord(e)));
    case AckOp(id) =>
      DropIs(es, id);
      if Has(es, id) && Drop(es, id) == [] {
        EmptyLogRecovers();
      } else {
        LineIsReadBack(AckRecord(id));
        RecoverAppend(text, Line(AckRecord(id)));
      }
  }

  lemma EmptyLogRecovers()
    ensures Recover("") == [] && Complete("")
  {
    EmptyLineIsSkipped();
    ReplaySnoc([], "");
    assert [] + [""] == [""];
  }

  /** A crash anywhere inside an operation, compaction included, recovers to the state just before it or just after
      it. (`CoreLaneInbox.Compact` says that during compaction it is the state after it.) */
  lemma CrashRecovers(text: string, es: Entries, op: Op, left: string)
    requires InStep(text, es) && CrashLog(text, es, op, left)
    ensures Recover(left) == Visible(es) || Recover(left) == Visible(StepEntries(es, op))
  {
    RecordStep(es, op);
    StepKeepsInStep(text, es, op);
    var r := match op case AppendOp(e) => EntryRecord(e) case AckOp(id) => AckRecord(id);
    if IsTorn(text, r, left) {
      var torn :| Utf8.IsCut(Line(r) + "\n", torn) && left == text + torn;
      TornRecordRecovers(text, r, torn);
    }
  }

  function RunEntries(es: Entries, ops: seq<Op>): Entries {
    if ops == [] then es else StepEntries(RunEntries(es, ops[..|ops| - 1]), ops[|ops| - 1])
  }

  function RunLog(text: string, es: Entries, ops: seq<Op>): string {
    if ops == [] then text
    else StepLog(RunLog(text, es, ops[..|ops| - 1]), RunEntries(es, ops[..|ops| - 1]), ops[|ops| - 1])
  }

  /** After any run of operations on a log of complete lines, replaying the log rebuilds the map, in its
      order, except for entries with an empty id; so the pending lists differ in these only. */
  lemma {:induction false} RunRecovers(text: string, ops: seq<Op>)
    requires Complete(text)
    ensures var es := RunEntries(Recover(text), ops);
            var log := RunLog(text, Recover(text), ops);
            InStep(log, es) && (Recover(log) == es <==> !Has(es, ""))
            && SortByTs(Recover(log)) == Visible(SortByTs(es))
  {
    if ops == [] {
      RecoveredIsClean(text);
    } else {
      var init := ops[..|ops| - 1];
      RunRecovers(text, init);
      StepKeepsInStep(RunLog(text, Recover(text), init), RunEntries(Recover(text), init), ops[|ops| - 1]);
    }
    VisibleIff(RunEntries(Recover(text), ops));
    VisibleSorted(RunEntries(Recover(text), ops));
  }

  lemma {:induction false} VisibleIff(es: Entries)
    ensures Visible(es) == es <==> !Has(es, "")
    ensures forall i :: 0 <= i < |Visible(es)| ==> Visible(es)[i].id != ""
  {
    if es != [] {
      var t := es[1..];
      VisibleIff(t);
      assert forall i :: 0 <= i < |t| ==> t[i] == es[i + 1];
      if Has(es, "") && es[0].id != "" {
        var i :| 0 <= i < |es| && es[i].id == "";
        assert t[i - 1].id == "";
      }
      if es[0].id == "" {
        VisibleShorter(t);
      }
    }
  }

  lemma {:induction false} VisibleShorter(es: Entries)
    ensures |Visible(es)| <= |es|
  {
    if es != [] {
      VisibleShorter(es[1..]);
    }
  }

  /** Whatever a log holds, what is recovered from it has distinct, non-empty ids. */
  lemma RecoveredIsClean(text: string)
    ensures DistinctIds(Recover(text)) && Visible(Recover(text)) == Recover(text)
  {
    ReplayIsClean(Split(text, '\n'));
    VisibleIsVisible(Recover(text));
  }

  lemma {:induction false} ReplayIsClean(lines: seq<string>)
    ensures DistinctIds(Replay(lines)) && forall i :: 0 <= i < |Replay(lines)| ==> Replay(lines)[i].id != ""
  {
    if lines != [] {
      var es, r := Replay(lines[..|lines| - 1]), ReadLine(lines[|lines| - 1]);
      ReplayIsClean(lines[..|lines| - 1]);
      hide ReadLine;
      if r.Some? && r.value.EntryRecord? && r.value.entry.id != "" {
        PutKeepsIds(es, r.value.entry);
        PutKeepsNonEmpty(es, r.value.entry);
      } else if r.Some? && r.value.AckRecord? {
        DropKeepsIds(es, r.value.id);
        var d := Drop(es, r.value.id);
        assert forall i :: 0 <= i < |d| ==> d[i] in d;
      }
    }
  }

  lemma {:induction false} PutKeepsNonEmpty(es: Entries, e: Entry)
    requires e.id != "" && forall i :: 0 <= i < |es| ==> es[i].id != ""
    ensures forall i :: 0 <= i < |Put(es, e)| ==> Put(es, e)[i].id != ""
  {
    if es != [] {
      PutKeepsNonEmpty(es[1..], e);
    }
  }

  /** The compacted log of any map recovers to that map. */
  lemma {:induction false} BodyRecovers(es: Entries)
    requires DistinctIds(es)
    ensures InStep(Body(es), es)
  {
    if es == [] {
      EmptyLogRecovers();
    } else {
      var init, last := es[..|es| - 1], es[|es| - 1];
      assert DistinctIds(init);
      hide Recover, Body, DistinctIds, Put;
      BodyRecovers(init);
      BodySnoc(init, last);
      assert init + [last] == es;
      PutNew(init, last);
      StepKeepsInStep(Body(init), init, AppendOp(last));
    }
  }

  lemma BodySnoc(init: Entries, last: Entry)
    ensures Body(init + [last]) == Body(init) + Line(EntryRecord(last)) + "\n"
  {
    var line := Line(EntryRecord(last));
    hide Line;
    assert (init + [last])[..|init|] == init;
    if init != [] {
      JoinAppend(Lines(init), [line], "\n");
    } else {
      assert Lines([last]) == [line];
    }
  }

  lemma PutNew(es: Entries, e: Entry)
    requires DistinctIds(es + [e])
    ensures Put(es, e) == es + [e]
  {
    var all := es + [e];
    assert all[|es|] == e && forall i :: 0 <= i < |es| ==> all[i] == es[i] && all[i].id != all[|es|].id;
    PutIs(es, e);
  }

  // ---------------------------------------------------------------- histories

  /** One append to the log: the record, and what is read of the bytes of its line that reached the disk. */
  datatype Write = Write(record: DiskRecord, left: string)

  ghost predicate IsWrite(w: Write) {
    w.left != "" && Utf8.IsCut(Line(w.record) + "\n", w.left)
  }

  ghost predicate AllWrites(ws: seq<Write>) {
    forall i :: 0 <= i < |ws| ==> IsWrite(ws[i])
  }

  /** The line reached the disk with its newline. */
  predicate Whole(w: Write) {
    w.left == Line(w.record) + "\n"
  }

  function Written(ws: seq<Write>): string {
    if ws == [] then "" else Written(ws[..|ws| - 1]) + ws[|ws| - 1].left
  }

  function Records(ws: seq<Write>): seq<DiskRecord> {
    if ws == [] then [] else Records(ws[..|ws| - 1]) + [ws[|ws| - 1].record]
  }

  function ApplyAll(es: Entries, rs: seq<DiskRecord>): Entries {
    if rs == [] then es else Apply(ApplyAll(es, rs[..|rs| - 1]), Some(rs[|rs| - 1]))
  }

  /** The record is there in full, the append just before it ended with its newline, and so did its own unless
      nothing was appended since. */
  predicate Survives(ws: seq<Write>, i: nat)
    requires i < |ws|
  {
    && Line(ws[i].record) <= ws[i].left
    && (i == 0 || Whole(ws[i - 1]))
    && (i == |ws| - 1 || Whole(ws[i]))
  }

  /** The surviving records among the first `n`. */
  function Surviving(ws: seq<Write>, n: nat): seq<DiskRecord>
    requires n <= |ws|
  {
    if n == 0 then []
    else Surviving(ws, n - 1) + (if Survives(ws, n - 1) then [ws[n - 1].record] else [])
  }

  /** What a further append changes for the records before it: only the last one can lose. */
  lemma {:induction false} SurvivingBefore(ws: seq<Write>, n: nat)
    requires n < |ws| && (n == |ws| - 1 ==> n == 0 || Whole(ws[n - 1]))
    ensures Surviving(ws, n) == Surviving(ws[..|ws| - 1], n)
  {
    if n > 0 {
      SurvivingBefore(ws, n - 1);
      hide Line;
      assert Survives(ws, n - 1) <==> Survives(ws[..|ws| - 1], n - 1);
    }
  }

  /** The surviving records among the first `m`, which is one more than `n`. */
  lemma SurvivingStep(ws: seq<Write>, n: nat, m: nat)
    requires n < m == n + 1 <= |ws|
    ensures Surviving(ws, m) == if Survives(ws, n) then Surviving(ws, n) + [ws[n].record] else Surviving(ws, n)
  {
    hide Survives;
    assert Surviving(ws, n) + [] == Surviving(ws, n);
  }

  /** Whether the last append survives, and what it does to the others. */
  lemma LastAppend(ws: seq<Write>, n: nat)
    requires |ws| == n + 1
    ensures Surviving(ws, |ws|) == if Survives(ws, n) then Surviving(ws, n) + [ws[n].record] else Surviving(ws, n)
    ensures if n == 0 || Whole(ws[n - 1])
            then Surviving(ws, n) == Surviving(ws[..n], n) && (Survives(ws, n) <==> Line(ws[n].record) <= ws[n].left)
            else Surviving(ws, n) == Surviving(ws[..n], n - 1) && !Survives(ws, n)
  {
    SurvivingStep(ws, n, |ws|);
    if n == 0 || Whole(ws[n - 1]) {
      SurvivingBefore(ws, n);
    } else {
      var m := n - 1;
      assert !Survives(ws, m);
      hide Surviving, Survives, Whole, Line;
      SurvivingBefore(ws, m);
      SurvivingStep(ws, m, n);
    }
  }

  /** A log that grew by some appends and ends with a newline. */
  ghost predicate EndsWell(text: string, ws: seq<Write>, base: string) {
    && (ws == [] || Whole(ws[|ws| - 1]))
    && text + Written(ws) == base && Complete(base)
    && Recover(base) == ApplyAll(Recover(text), Surviving(ws, |ws|))
  }

  /** One that does not: complete lines, and a rest that is read as the last record or not at all. */
  ghost predicate EndsTorn(text: string, ws: seq<Write>, base: string, rest: string) {
    && ws != [] && !Whole(ws[|ws| - 1])
    && text + Written(ws) == base + rest && Complete(base) && rest != "" && rest[0] == '{' && '\n' !in rest
    && Recover(base) == ApplyAll(Recover(text), Surviving(ws, |ws| - 1))
    && ReadLine(rest) == if Survives(ws, |ws| - 1) then Some(ws[|ws| - 1].record) else None
  }

  lemma {:induction false} LogGrows(text: string, ws: seq<Write>) returns (base: string, rest: string)
    requires Complete(text) && AllWrites(ws)
    ensures if rest == "" then EndsWell(text, ws, base) else EndsTorn(text, ws, base, rest)
  {
    if ws == [] {
      base, rest := text, "";
      assert text + "" == text;
    } else {
      var init, w := ws[..|ws| - 1], ws[|ws| - 1];
      assert AllWrites(init) && IsWrite(w);
      base, rest := LogGrows(text, init);
      LineIsReadBack(w.record);
      RemainsOfRecord(Line(w.record), w.left);
      hide *;
      LastAppend(ws, |ws| - 1);
      if rest == "" && Whole(w) {
        WholeBehindLines(text, ws, base);
        base := base + Line(w.record) + "\n";
      } else if rest == "" {
        TornBehindLines(text, ws, base);
        rest := w.left;
      } else if Whole(w) {
        WholeBehindRest(text, ws, base, rest);
        base, rest := base + (rest + Line(w.record)) + "\n", "";
      } else {
        TornBehindRest(text, ws, base, rest);
        rest := rest + w.left;
      }
    }
  }

  lemma WholeBehindLines(text: string, ws: seq<Write>, base: string)
    requires ws != [] && EndsWell(text, ws[..|ws| - 1], base) && Whole(ws[|ws| - 1])
    ensures EndsWell(text, ws, base + Line(ws[|ws| - 1].record) + "\n")
  {
    var n, r := |ws| - 1, ws[|ws| - 1].record;
    var line, written := Line(r), Written(ws[..n]);
    assert Written(ws) == written + (line + "\n") && text + written == base + "" && base + "" == base;
    assert "" + line == line;
    LineIsReadBack(r);
    WholeSurvives(ws, n);
    LineBehind(text, written, base, "", line);
    hide Line, Recover, ReadLine, Surviving, ApplyAll, Survives, Complete, Whole, Written;
    RecoverAppend(base, line);
    AppliedLast(Recover(text), Surviving(ws[..n], n), r);
  }

  lemma TornBehindLines(text: string, ws: seq<Write>, base: string)
    requires ws != [] && EndsWell(text, ws[..|ws| - 1], base) && IsWrite(ws[|ws| - 1]) && !Whole(ws[|ws| - 1])
    ensures EndsTorn(text, ws, base, ws[|ws| - 1].left)
  {
    var n, w := |ws| - 1, ws[|ws| - 1];
    LastAppend(ws, |ws| - 1);
    RemainsOfRecord(Line(w.record), w.left);
    RemainsAreOneLine(w.record, w.left);
    RemainsAreShort(w.record, w.left);
    hide Line, Recover, ReadLine, Surviving, ApplyAll, Survives, Complete;
    Reassociate(text, Written(ws[..n]), w.left);
  }

  lemma WholeBehindRest(text: string, ws: seq<Write>, base: string, rest: string)
    requires ws != [] && EndsTorn(text, ws[..|ws| - 1], base, rest) && Whole(ws[|ws| - 1])
    ensures EndsWell(text, ws, base + (rest + Line(ws[|ws| - 1].record)) + "\n")
  {
    var n, r := |ws| - 1, ws[|ws| - 1].record;
    var line := Line(r);
    LastAppend(ws, |ws| - 1);
    LineIsReadBack(r);
    GluedLineIsSkipped(rest, r);
    hide Line, Recover, ReadLine, Surviving, ApplyAll, Survives, Complete;
    LineBehind(text, Written(ws[..n]), base, rest, line);
    NoNewline(rest, line);
    RecoverAppend(base, rest + line);
  }

  lemma TornBehindRest(text: string, ws: seq<Write>, base: string, rest: string)
    requires ws != [] && EndsTorn(text, ws[..|ws| - 1], base, rest)
    requires IsWrite(ws[|ws| - 1]) && !Whole(ws[|ws| - 1])
    ensures EndsTorn(text, ws, base, rest + ws[|ws| - 1].left)
  {
    var n, w := |ws| - 1, ws[|ws| - 1];
    LastAppend(ws, |ws| - 1);
    RemainsOfRecord(Line(w.record), w.left);
    RemainsAreOneLine(w.record, w.left);
    GluedRemainsAreSkipped(rest, w.record, w.left);
    hide Line, Recover, ReadLine, Surviving, ApplyAll, Survives, Complete;
    Reassociate(text, Written(ws[..n]), w.left);
    Reassociate(base, rest, w.left);
    NoNewline(rest, w.left);
  }

  /** A line and its newline behind a log and a rest. */
  lemma LineBehind(text: string, written: string, base: string, rest: string, line: string)
    requires text + written == base + rest
    ensures text + (written + (line + "\n")) == base + (rest + line) + "\n"
  {
    Reassociate(text, written, line + "\n");
    Reassociate(base, rest, line + "\n");
    Reassociate(rest, line, "\n");
    Reassociate(base, rest + line, "\n");
  }

  lemma NoNewline(a: string, b: string)
    requires '\n' !in a && '\n' !in b
    ensures '\n' !in a + b && (a != "" ==> a + b != "" && (a + b)[0] == a[0])
  {
  }

  lemma AppliedLast(es: Entries, rs: seq<DiskRecord>, r: DiskRecord)
    ensures ApplyAll(es, rs + [r]) == Apply(ApplyAll(es, rs), Some(r))
  {
    assert (rs + [r])[..|rs|] == rs;
  }

  /** The exact set of records lost: however often appending was cut short, and wherever, a restart recovers exactly
      the records that survive in the sense of `Survives`, in order. */
  lemma WritesSurvive(text: string, ws: seq<Write>)
    requires Complete(text) && AllWrites(ws)
    ensures Recover(text + Written(ws)) == ApplyAll(Recover(text), Surviving(ws, |ws|))
  {
    var base, rest := LogGrows(text, ws);
    if rest != "" {
      RestIsRead(text, ws, |ws| - 1, base, rest);
    }
  }

  lemma RestIsRead(text: string, ws: seq<Write>, n: nat, base: string, rest: string)
    requires |ws| == n + 1 && EndsTorn(text, ws, base, rest)
    ensures Recover(base + rest) == ApplyAll(Recover(text), Surviving(ws, |ws|))
  {
    LastAppend(ws, n);
    var es, kept, r := Recover(text), Surviving(ws, n), ws[n].record;
    assert Recover(base) == ApplyAll(es, kept);
    assert ReadLine(rest) == if Survives(ws, n) then Some(r) else None;
    assert Apply(Recover(base), None) == Recover(base);
    RecoverAppend(base, rest);
    hide *;
    AppliedLast(es, kept, r);
  }

  /** The inbox at some moment: the log is `base`, complete lines, and the appends since; the first `since` of these
      were there when the inbox was loaded last; `es` is its map. */
  datatype World = World(base: string, ws: seq<Write>, since: nat, es: Entries)

  function LogText(w: World): string {
    w.base + Written(w.ws)
  }

  /** An operation is completed, or the process dies in it and the inbox is loaded again. (Dying in a compaction after
      its rename is completing the operation and dying with nothing of the next one on the disk.) */
  datatype Event = Ran(op: Op) | Died(op: Op, left: string)

  function RecordFor(op: Op): DiskRecord {
    match op
    case AppendOp(e) => EntryRecord(e)
    case AckOp(id) => AckRecord(id)
  }

  /** An unknown acknowledgement writes nothing. */
  predicate Appends(es: Entries, op: Op) {
    op.AckOp? ==> Has(es, op.id)
  }

  predicate Compacts(es: Entries, op: Op) {
    op.AckOp? && Has(es, op.id) && Drop(es, op.id) == []
  }

  ghost predicate Possible(w: World, e: Event) {
    e.Died? ==> Utf8.IsCut(Line(RecordFor(e.op)) + "\n", e.left) && (e.left != "" ==> Appends(w.es, e.op))
  }

  function Next(w: World, e: Event): World {
    match e
    case Ran(op) =>
      if !Appends(w.es, op) then w
      else if Compacts(w.es, op) then World("", [], 0, [])
      else
        var line := Line(RecordFor(op)) + "\n";
        World(w.base, w.ws + [Write(RecordFor(op), line)], w.since, StepEntries(w.es, op))
    case Died(op, left) =>
      var ws := if left == "" then w.ws else w.ws + [Write(RecordFor(op), left)];
      World(w.base, ws, |ws|, Recover(w.base + Written(ws)))
  }

  lemma WrittenMore(ws: seq<Write>, w: Write)
    ensures Written(ws + [w]) == Written(ws) + w.left && Records(ws + [w]) == Records(ws) + [w.record]
  {
    assert (ws + [w])[..|ws|] == ws;
  }

  /** A completed operation leaves the log and the map that `CoreLaneInbox` promises. */
  lemma RanIsStep(w: World, op: Op)
    ensures LogText(Next(w, Ran(op))) == StepLog(LogText(w), w.es, op)
    ensures Next(w, Ran(op)).es == StepEntries(w.es, op)
  {
    var line := Line(RecordFor(op)) + "\n";
    WrittenMore(w.ws, Write(RecordFor(op), line));
    match op
    case AppendOp(e) =>
      assert w.base + (Written(w.ws) + line) == LogText(w) + Line(EntryRecord(e)) + "\n";
    case AckOp(id) =>
      DropIs(w.es, id);
      assert w.base + (Written(w.ws) + line) == LogText(w) + Line(AckRecord(id)) + "\n";
  }

  /** The logs a crash can leave are those of the events. */
  lemma DiedIsCrash(w: World, op: Op, log: string)
    ensures CrashLog(LogText(w), w.es, op, log) <==>
            || (exists left :: Possible(w, Died(op, left)) && LogText(Next(w, Died(op, left))) == log)
            || (Compacts(w.es, op) && log == LogText(Next(w, Ran(op))))
  {
    RanIsStep(w, op);
    var r := RecordFor(op);
    NothingIsTorn(LogText(w), r);
    WholeRecordIsTorn(LogText(w), r);
    hide Line;
    assert Utf8.CutAt(Line(r) + "\n", "", 0, 0);
    forall left
      ensures LogText(Next(w, Died(op, left))) == LogText(w) + left
    {
      WrittenMore(w.ws, Write(r, left));
      assert w.base + (Written(w.ws) + left) == LogText(w) + left;
    }
    if IsTorn(LogText(w), r, log) && Appends(w.es, op) {
      var left :| Utf8.IsCut(Line(r) + "\n", left) && log == LogText(w) + left;
      assert Possible(w, Died(op, left));
    }
    if !Appends(w.es, op) {
      assert Possible(w, Died(op, "")) && LogText(w) + "" == LogText(w);
    }
  }

  /** Appends of which the last session's are whole. */
  ghost predicate Appended(ws: seq<Write>, since: nat) {
    AllWrites(ws) && since <= |ws| && forall i :: since <= i < |ws| ==> Whole(ws[i])
  }

  lemma AppendedMore(ws: seq<Write>, since: nat, write: Write)
    requires Appended(ws, since) && IsWrite(write) && Whole(write)
    ensures Appended(ws + [write], since)
  {
    hide Whole, IsWrite;
  }

  /** What holds in every world. */
  ghost predicate Sound(w: World) {
    && Complete(w.base) && Appended(w.ws, w.since) && DistinctIds(w.es)
    && Visible(w.es) == ApplyAll(Recover(w.base + Written(w.ws[..w.since])), Records(w.ws[w.since..]))
  }

  lemma RanIsSound(w: World, op: Op)
    requires Sound(w)
    ensures Sound(Next(w, Ran(op)))
  {
    EmptyLogRecovers();
    NoneIsDistinct();
    assert Compacts(w.es, op) ==> "" + Written([][..0]) == "";
    hide Recover, Line, Apply, Visible, DistinctIds, IsWrite;
    if Appends(w.es, op) && !Compacts(w.es, op) {
      AppendIsSound(w, op);
    }
  }

  lemma AppendIsSound(w: World, op: Op)
    requires Sound(w)
    ensures var all := w.ws + [Write(RecordFor(op), Line(RecordFor(op)) + "\n")];
            Sound(World(w.base, all, w.since, StepEntries(w.es, op)))
  {
    var write := Write(RecordFor(op), Line(RecordFor(op)) + "\n");
    RecordStep(w.es, op);
    WholeIsWrite(RecordFor(op));
    AppendIsRemembered(w, write);
    AppendedMore(w.ws, w.since, write);
    hide Recover, Line, Apply, Visible, DistinctIds, StepEntries, ApplyAll, Records, Written, Appended;
  }

  lemma AppendIsRemembered(w: World, write: Write)
    requires w.since <= |w.ws|
    requires Visible(w.es) == ApplyAll(Recover(w.base + Written(w.ws[..w.since])), Records(w.ws[w.since..]))
    ensures var all := w.ws + [write];
            Apply(Visible(w.es), Some(write.record))
              == ApplyAll(Recover(w.base + Written(all[..w.since])), Records(all[w.since..]))
  {
    var all, es := w.ws + [write], Recover(w.base + Written(w.ws[..w.since]));
    hide *;
    assert all[..w.since] == w.ws[..w.since];
    assert all[w.since..] == w.ws[w.since..] + [write];
    WrittenMore(w.ws[w.since..], write);
    AppliedLast(es, Records(w.ws[w.since..]), write.record);
  }

  lemma NoneIsDistinct()
    ensures DistinctIds([]) && Visible([]) == []
  {
  }

  lemma WholeIsWrite(r: DiskRecord)
    ensures IsWrite(Write(r, Line(r) + "\n"))
  {
    var all := Line(r) + "\n";
    hide Line;
    assert all[..|all|] + Utf8.Marks(0) == all;
    assert Utf8.CutAt(all, all, |all|, 0);
  }

  lemma DiedIsSound(w: World, op: Op, left: string)
    requires Sound(w) && Possible(w, Died(op, left))
    ensures Sound(Next(w, Died(op, left)))
  {
    var v := Next(w, Died(op, left));
    RecoveredIsClean(LogText(v));
    hide Recover, Line, Visible, DistinctIds, Complete, Whole, Written;
    assert v.ws[..v.since] == v.ws;
    hide Records;
    NoRecordsApplied(v.ws[v.since..], Recover(LogText(v)));
  }

  lemma NoRecordsApplied(ws: seq<Write>, es: Entries)
    requires ws == []
    ensures ApplyAll(es, Records(ws)) == es
  {
  }

  function Run(w: World, events: seq<Event>): World {
    if events == [] then w else Next(Run(w, events[..|events| - 1]), events[|events| - 1])
  }

  /** The events happen one after the other. */
  lemma RunSnoc(w: World, events: seq<Event>, e: Event)
    ensures Run(w, []) == w && Run(w, events + [e]) == Next(Run(w, events), e)
  {
    hide Next;
    assert (events + [e])[..|events|] == events;
  }

  ghost predicate PossibleRun(w: World, events: seq<Event>) {
    forall i :: 0 <= i < |events| ==> Possible(Run(w, events[..i]), events[i])
  }

  /** An inbox loaded from a log of complete lines. */
  function Loaded(text: string): World {
    World(text, [], 0, Recover(text))
  }

  lemma {:induction false} RunIsSound(text: string, events: seq<Event>)
    requires Complete(text) && PossibleRun(Loaded(text), events)
    ensures Sound(Run(Loaded(text), events))
  {
    if events == [] {
      RecoveredIsClean(text);
      assert text + Written([]) == text;
    } else {
      var n := |events| - 1;
      PossiblePrefix(Loaded(text), events, n);
      RunIsSound(text, events[..n]);
      hide Sound, Possible, Next;
      NextIsSound(Run(Loaded(text), events[..n]), events[n]);
    }
  }

  lemma PossiblePrefix(w: World, events: seq<Event>, n: nat)
    requires n < |events| && PossibleRun(w, events)
    ensures PossibleRun(w, events[..n]) && Possible(Run(w, events[..n]), events[n])
  {
    hide Possible, Run;
    assert forall i :: 0 <= i < n ==> events[..n][..i] == events[..i];
  }

  lemma NextIsSound(w: World, e: Event)
    requires Sound(w) && Possible(w, e)
    ensures Sound(Next(w, e))
  {
    hide Sound, Next;
    match e
    case Ran(op) => RanIsSound(w, op);
    case Died(op, left) => DiedIsSound(w, op, left);
  }

  /** The last session loses nothing if the append before it ended with its newline. */
  lemma {:induction false} SessionSurvives(ws: seq<Write>, since: nat, n: nat)
    requires since <= n == |ws| && forall i :: since <= i < n ==> Whole(ws[i])
    requires since == 0 || since == n || Whole(ws[since - 1])
    ensures Surviving(ws, n) == Surviving(ws[..since], since) + Records(ws[since..])
  {
    hide *;
    if since == n {
      assert ws[..since] == ws;
      NoRecords(ws[since..]);
    } else {
      var m := n - 1;
      SessionSurvives(ws[..m], since, m);
      WholeSurvives(ws, m);
      assert ws[..m][..since] == ws[..since];
      assert ws[since..] == ws[..m][since..] + [ws[m]];
      WrittenMore(ws[..m][since..], ws[m]);
    }
  }

  lemma NoRecords(ws: seq<Write>)
    requires ws == []
    ensures forall rs: seq<DiskRecord> :: rs + Records(ws) == rs
  {
  }

  lemma WholeSurvives(ws: seq<Write>, m: nat)
    requires |ws| == m + 1 && Whole(ws[m]) && (m == 0 || Whole(ws[m - 1]))
    ensures Surviving(ws, m + 1) == Surviving(ws[..m], m) + [ws[m].record]
  {
    var line := Line(ws[m].record);
    assert line <= line + "\n";
    LastAppend(ws, m);
    hide Line, Surviving, Survives;
  }

  lemma {:induction false} ApplyTwice(es: Entries, a: seq<DiskRecord>, b: seq<DiskRecord>)
    ensures ApplyAll(es, a + b) == ApplyAll(ApplyAll(es, a), b)
  {
    if b == [] {
      assert a + b == a;
    } else {
      assert (a + b)[..|a + b| - 1] == a + b[..|b| - 1];
      ApplyTwice(es, a, b[..|b| - 1]);
    }
  }

  /** The whole history: operations, crashes with any number of bytes on the disk, restarts and further operations in
      any order. A restart recovers the base log and of the records appended since exactly those that survive, while
      the map holds what was recovered at the last restart and every record appended since; the two agree if the log
      ended with a newline at that restart, or nothing was appended since. */
  lemma HistoryRecovers(text: string, events: seq<Event>)
    requires Complete(text) && PossibleRun(Loaded(text), events)
    ensures var w := Run(Loaded(text), events);
      && w.since <= |w.ws| && Recover(LogText(w)) == ApplyAll(Recover(w.base), Surviving(w.ws, |w.ws|))
      && Visible(w.es) == ApplyAll(Recover(w.base + Written(w.ws[..w.since])), Records(w.ws[w.since..]))
      && (w.since == 0 || w.since == |w.ws| || Whole(w.ws[w.since - 1]) ==> Recover(LogText(w)) == Visible(w.es))
  {
    RunIsSound(text, events);
    hide Run, PossibleRun, Loaded;
    SoundRecovers(Run(Loaded(text), events));
  }

  lemma SoundRecovers(w: World)
    requires Sound(w)
    ensures Recover(LogText(w)) == ApplyAll(Recover(w.base), Surviving(w.ws, |w.ws|))
    ensures w.since == 0 || w.since == |w.ws| || Whole(w.ws[w.since - 1]) ==> Recover(LogText(w)) == Visible(w.es)
  {
    hide Recover, Visible, DistinctIds, Complete, Whole, Written, Surviving, ApplyAll, Records, IsWrite;
    WritesSurvive(w.base, w.ws);
    if w.since == 0 || w.since == |w.ws| || Whole(w.ws[w.since - 1]) {
      hide *;
      SessionRecovers(w.base, w.ws, w.since);
    }
  }

  lemma SessionRecovers(base: string, ws: seq<Write>, since: nat)
    requires Complete(base) && Appended(ws, since) && (since == 0 || since == |ws| || Whole(ws[since - 1]))
    ensures Recover(base + Written(ws)) == ApplyAll(Recover(base + Written(ws[..since])), Records(ws[since..]))
  {
    var es, first, later := Recover(base), ws[..since], Records(ws[since..]);
    assert AllWrites(first) && AllWrites(ws) && forall i :: since <= i < |ws| ==> Whole(ws[i]);
    hide *;
    WritesSurvive(base, ws);
    WritesSurvive(base, first);
    SessionSurvives(ws, since, |ws|);
    ApplyTwice(es, Surviving(first, since), later);
  }

  // ---------------------------------------------------------------- pending entries

  /** Entries stamped with one time, in order. */
  function At(es: Entries, ts: int): Entries {
    if es == [] then []
    else if es[0].ts == ts then [es[0]] + At(es[1..], ts)
    else At(es[1..], ts)
  }

  ghost predicate SortedByTs(es: Entries) {
    forall i, j :: 0 <= i < j < |es| ==> es[i].ts <= es[j].ts
  }

  function InsertByTs(es: Entries, e: Entry): Entries {
    if es == [] then [e]
    else if e.ts < es[0].ts then [e] + es
    else [es[0]] + InsertByTs(es[1..], e)
  }

  /** `sort((a, b) => a.ts - b.ts)`. */
  function SortByTs(es: Entries): Entries {
    if es == [] then [] else InsertByTs(SortByTs(es[..|es| - 1]), es[|es| - 1])
  }

  lemma {:induction false} InsertIsStable(es: Entries, e: Entry, ts: int)
    requires SortedByTs(es)
    ensures At(InsertByTs(es, e), ts) == At(es, ts) + (if e.ts == ts then [e] else [])
  {
    if es == [] {
    } else if e.ts < es[0].ts {
      LaterHasNone(es, e.ts);
      assert ([e] + es)[1..] == es;
    } else {
      var r := [es[0]] + InsertByTs(es[1..], e);
      assert r[1..] == InsertByTs(es[1..], e);
      InsertIsStable(es[1..], e, ts);
    }
  }

  lemma {:induction false} LaterHasNone(es: Entries, ts: int)
    requires forall i :: 0 <= i < |es| ==> ts < es[i].ts
    ensures At(es, ts) == []
  {
    if es != [] {
      LaterHasNone(es[1..], ts);
    }
  }

  lemma {:induction false} InsertKeepsSorted(es: Entries, e: Entry)
    requires SortedByTs(es)
    ensures SortedByTs(InsertByTs(es, e))
    ensures forall x :: x in InsertByTs(es, e) <==> x in es || x == e
  {
    if es != [] && es[0].ts <= e.ts {
      var t := InsertByTs(es[1..], e);
      InsertKeepsSorted(es[1..], e);
      assert forall x :: x in es <==> x == es[0] || x in es[1..];
      assert forall i :: 0 <= i < |t| ==> t[i] in t;
    }
  }

  /** The pending list is sorted by time and keeps entries of one time in map order: for every time it
      holds exactly the map's entries of that time, in the map's order. */
  lemma {:induction false} PendingIsStable(es: Entries, ts: int)
    ensures SortedByTs(SortByTs(es)) && At(SortByTs(es), ts) == At(es, ts)
  {
    if es != [] {
      var init, last := es[..|es| - 1], es[|es| - 1];
      PendingIsStable(init, ts);
      InsertKeepsSorted(SortByTs(init), last);
      InsertIsStable(SortByTs(init), last, ts);
      AtSnoc(init, last, ts);
      assert init + [last] == es;
    }
  }

  /** Sorting and leaving out empty ids can be done in either order. */
  lemma {:induction false} VisibleSorted(es: Entries)
    ensures SortByTs(Visible(es)) == Visible(SortByTs(es)) && SortedByTs(SortByTs(es))
  {
    if es != [] {
      var init, last := es[..|es| - 1], es[|es| - 1];
      VisibleSorted(init);
      InsertKeepsSorted(SortByTs(init), last);
      VisibleInserted(SortByTs(init), last);
      VisibleSnoc(init, last);
      assert init + [last] == es;
      hide Visible, SortedByTs;
      assert Visible(init) + [] == Visible(init);
      if last.id != "" {
        assert (Visible(init) + [last])[..|Visible(init)|] == Visible(init);
      }
    }
  }

  lemma {:induction false} VisibleSnoc(es: Entries, e: Entry)
    ensures Visible(es + [e]) == Visible(es) + (if e.id == "" then [] else [e])
  {
    if es == [] {
      assert es + [e] == [e];
    } else {
      assert (es + [e])[1..] == es[1..] + [e];
      VisibleSnoc(es[1..], e);
    }
  }

  lemma {:induction false} VisibleInserted(es: Entries, e: Entry)
    requires SortedByTs(es)
    ensures Visible(InsertByTs(es, e)) == if e.id == "" then Visible(es) else InsertByTs(Visible(es), e)
  {
    if es == [] {
    } else if e.ts < es[0].ts {
      VisibleLater(es, e.ts);
      assert ([e] + es)[1..] == es;
      assert e.id != "" ==> Visible([e] + es) == [e] + Visible(es);
    } else {
      var r := [es[0]] + InsertByTs(es[1..], e);
      assert r[1..] == InsertByTs(es[1..], e);
      VisibleInserted(es[1..], e);
      assert ([es[0]] + Visible(es[1..]))[1..] == Visible(es[1..]);
    }
  }

  lemma {:induction false} VisibleLater(es: Entries, ts: int)
    requires forall i :: 0 <= i < |es| ==> ts < es[i].ts
    ensures forall i :: 0 <= i < |Visible(es)| ==> ts < Visible(es)[i].ts
  {
    if es != [] {
      VisibleLater(es[1..], ts);
    }
  }

  lemma StableByTs(es: Entries)
    ensures SortedByTs(SortByTs(es)) && forall ts :: At(SortByTs(es), ts) == At(es, ts)
  {
    forall ts
      ensures SortedByTs(SortByTs(es)) && At(SortByTs(es), ts) == At(es, ts)
    {
      PendingIsStable(es, ts);
    }
    PendingIsStable(es, 0);
  }

  lemma {:induction false} AtSnoc(es: Entries, e: Entry, ts: int)
    ensures At(es + [e], ts) == At(es, ts) + (if e.ts == ts then [e] else [])
  {
    if es != [] {
      assert (es + [e])[1..] == es[1..] + [e];
      AtSnoc(es[1..], e, ts);
    } else {
      assert (es + [e])[1..] == [];
    }
  }

  // ---------------------------------------------------------------- the file and the inbox

  datatype Disk = Disk(main: Option<Utf8.Bytes>, tmp: Option<Utf8.Bytes>)

  function BytesOf(d: Disk): Utf8.Bytes {
    if d.main.Some? then d.main.value else []
  }

  /** What reading the log gives; without a file there is nothing. */
  function LogOf(d: Disk): string {
    Utf8.Decode(BytesOf(d))
  }

  /** The log file and its temporary sibling. `seen` holds every state a crash since the last `Mark`
      can leave on disk. */
  class LogFile {
    var disk: Disk
    ghost var seen: set<Disk>

    constructor (disk: Disk)
      ensures this.disk == disk && seen == {disk}
    {
      this.disk, this.seen := disk, {disk};
    }

    ghost method Mark()
      modifies this
      ensures disk == old(disk) && seen == {disk}
    {
      seen := {disk};
    }

    /** Opens in append mode and writes; any number of bytes may have reached the disk when the process dies. */
    method Append(bytes: Utf8.Bytes)
      modifies this
      ensures disk == Disk(Some(BytesOf(old(disk)) + bytes), old(disk).tmp)
      ensures forall d :: d in seen ==>
                d in old(seen)
                || exists k :: 0 <= k <= |bytes| && d == Disk(Some(BytesOf(old(disk)) + bytes[..k]), old(disk).tmp)
    {
      seen := seen + set k | 0 <= k <= |bytes| :: Disk(Some(BytesOf(disk) + bytes[..k]), disk.tmp);
      disk := disk.(main := Some(BytesOf(disk) + bytes));
    }

    method WriteTmp(bytes: Utf8.Bytes)
      modifies this
      ensures disk == Disk(old(disk).main, Some(bytes))
      ensures forall d :: d in seen ==> d in old(seen) || d.main == old(disk).main
    {
      seen := seen + set k | 0 <= k <= |bytes| :: Disk(disk.main, Some(bytes[..k]));
      disk := disk.(tmp := Some(bytes));
    }

    method RenameTmp()
      requires disk.tmp.Some?
      modifies this
      ensures disk == Disk(old(disk).tmp, None) && seen == old(seen) + {disk}
    {
      disk := Disk(disk.tmp, None);
      seen := seen + {disk};
    }
  }

  /** `CoreLaneInboundInbox`. */
  class CoreLaneInbox {
    const file: LogFile
    var entries: Entries

    ghost predicate Valid()
      reads this, file
    {
      InStep(LogOf(file.disk), entries)
    }

    /** Replays the log. A log of complete lines gives an inbox in step with it. */
    constructor (file: LogFile)
      ensures this.file == file && entries == Recover(LogOf(file.disk))
      ensures Complete(LogOf(file.disk)) ==> Valid()
    {
      this.file := file;
      this.entries := [];
      new;
      hide Apply, ReadLine, Split, DistinctIds, Visible, Put, Drop;
      var lines := Split(LogOf(file.disk), '\n');
      for i := 0 to |lines|
        invariant entries == Replay(lines[..i])
      {
        assert lines[..i + 1] == lines[..i] + [lines[i]];
        ReplaySnoc(lines[..i], lines[i]);
        if lines[i] == "" {
          EmptyLineIsSkipped();
        } else {
          entries := Apply(entries, ReadLine(lines[i]));
        }
      }
      assert lines[..|lines|] == lines;
      RecoveredIsClean(LogOf(file.disk));
    }

    /** All entries, by time, those of one time in the order of the map. */
    function Pending(): (r: Entries)
      reads this
      ensures SortedByTs(r) && forall ts :: At(r, ts) == At(entries, ts)
    {
      StableByTs(entries);
      SortByTs(entries)
    }

    method Append(entry: Entry)
      requires Valid()
      modifies this, file
      ensures Valid() && entries == StepEntries(old(entries), AppendOp(entry))
      ensures LogOf(file.disk) == StepLog(old(LogOf(file.disk)), old(entries), AppendOp(entry))
      ensures forall d :: d in file.seen ==> CrashLog(old(LogOf(file.disk)), old(entries), AppendOp(entry), LogOf(d))
    {
      file.Mark();
      StepKeepsInStep(LogOf(file.disk), entries, AppendOp(entry));
      entries := Put(entries, entry);
      AppendDurable(EntryRecord(entry));
    }

    method AppendDurable(r: DiskRecord)
      requires file.seen == {file.disk}
      modifies file
      ensures LogOf(file.disk) == old(LogOf(file.disk)) + Line(r) + "\n"
      ensures forall d :: d in file.seen ==> IsTorn(old(LogOf(file.disk)), r, LogOf(d))
    {
      ghost var d0 := file.disk;
      var bytes := Utf8.Encode(Line(r) + "\n");
      AppendedLog(d0, r);
      hide Line, LogOf, IsTorn;
      file.Append(bytes);
    }

    method Acknowledge(id: string)
      requires Valid()
      modifies this, file
      ensures Valid() && entries == StepEntries(old(entries), AckOp(id))
      ensures LogOf(file.disk) == StepLog(old(LogOf(file.disk)), old(entries), AckOp(id))
      ensures forall d :: d in file.seen ==> CrashLog(old(LogOf(file.disk)), old(entries), AckOp(id), LogOf(d))
    {
      file.Mark();
      ghost var text, es := LogOf(file.disk), entries;
      AcknowledgeSteps(text, es, id);
      hide InStep, Drop, Body, Line, LogOf, IsTorn, Recover, Visible, StepLog, CrashLog;
      if !Has(entries, id) { return; }
      entries := Drop(entries, id);
      AppendDurable(AckRecord(id));
      if |entries| == 0 {
        Compact();
      }
    }

    /** Rewrites the log to the live entries through the temporary file and an atomic rename. A crash at any moment
        of it recovers exactly the live entries. */
    method Compact()
      requires Valid()
      modifies file
      ensures Valid() && LogOf(file.disk) == Body(entries)
      ensures forall d :: d in file.seen ==>
                d in old(file.seen)
                || ((LogOf(d) == old(LogOf(file.disk)) || LogOf(d) == Body(entries))
                      && Recover(LogOf(d)) == Visible(entries))
    {
      var body := Join(Lines(entries), "\n");
      var text := if |entries| > 0 then body + "\n" else "";
      assert text == Body(entries);
      Utf8.DecodeEncode(text);
      BodyRecovers(entries);
      assert Recover(Body(entries)) == Visible(entries) && Recover(LogOf(file.disk)) == Visible(entries);
      hide Recover, Visible, Body, Lines, InStep;
      file.WriteTmp(Utf8.Encode(text));
      file.RenameTmp();
    }
  }

  /** What the parts of an acknowledgement come to. */
  lemma AcknowledgeSteps(text: string, es: Entries, id: string)
    requires InStep(text, es)
    ensures var op, logged, rest := AckOp(id), text + Line(AckRecord(id)) + "\n", Drop(es, id);
      && StepEntries(es, op) == rest && CrashLog(text, es, op, text)
      && InStep(StepLog(text, es, op), StepEntries(es, op))
      && (!Has(es, id) ==> rest == es && StepLog(text, es, op) == text)
      && (Has(es, id) ==>
            && InStep(logged, rest) && StepLog(text, es, op) == (if rest == [] then Body(rest) else logged)
            && CrashLog(text, es, op, StepLog(text, es, op)) && CrashLog(text, es, op, logged)
            && (forall left :: IsTorn(text, AckRecord(id), left) ==> CrashLog(text, es, op, left)))
  {
    StepKeepsInStep(text, es, AckOp(id));
    DropIs(es, id);
    RecordStep(es, AckOp(id));
    LineIsReadBack(AckRecord(id));
    RecoverAppend(text, Line(AckRecord(id)));
    WholeRecordIsTorn(text, AckRecord(id));
    NothingIsTorn(text, AckRecord(id));
    hide Recover, Line, Visible, Drop;
  }

  lemma NothingIsTorn(text: string, r: DiskRecord)
    ensures IsTorn(text, r, text)
  {
    assert Utf8.CutAt(Line(r) + "\n", "", 0, 0);
    assert text + "" == text;
  }

  /** What the log reads as when any number of bytes of a record were appended. */
  lemma AppendedLog(d: Disk, r: DiskRecord)
    ensures var bytes := Utf8.Encode(Line(r) + "\n");
      && LogOf(Disk(Some(BytesOf(d) + bytes), d.tmp)) == LogOf(d) + Line(r) + "\n"
      && (forall k :: 0 <= k <= |bytes| ==> IsTorn(LogOf(d), r, LogOf(Disk(Some(BytesOf(d) + bytes[..k]), d.tmp))))
      && IsTorn(LogOf(d), r, LogOf(d))
  {
    var whole := Line(r) + "\n";
    var bytes := Utf8.Encode(whole);
    RecordStartsFresh(r);
    Utf8.DecodeEncode(whole);
    hide Line;
    Utf8.DecodeFresh(BytesOf(d), bytes);
    assert LogOf(d) + whole == LogOf(d) + Line(r) + "\n";
    forall k | 0 <= k <= |bytes|
      ensures IsTorn(LogOf(d), r, LogOf(Disk(Some(BytesOf(d) + bytes[..k]), d.tmp)))
    {
      Utf8.BytesCut(whole, k);
      Utf8.DecodeFresh(BytesOf(d), bytes[..k]);
    }
    hide LogOf;
    NothingIsTorn(LogOf(d), r);
  }

  lemma RecordStartsFresh(r: DiskRecord)
    ensures var bytes := Utf8.Encode(Line(r) + "\n"); bytes != [] && bytes[0] < 0x80
  {
    LineOpens(r);
    assert (Line(r) + "\n")[0] == '{';
  }

  lemma WholeRecordIsTorn(text: string, r: DiskRecord)
    ensures IsTorn(text, r, text + Line(r) + "\n")
  {
    WholeIsWrite(r);
    hide Line;
    Reassociate(text, Line(r), "\n");
  }
}
