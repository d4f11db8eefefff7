/** Bounded traversal of untrusted configuration graphs (shared/capability-management.ts). */
module BoundedJson {
  import opened Results
  import opened Text
  import Json
  import Utf8

  const TREE_DEPTH := 12
  const FILE_COUNT := 256
  const MAX_NODES := 2048           // FILE_COUNT * 8
  const AUDIT_ENVELOPE_BYTES := 262_144

  // ---------------------------------------------------------------- object graphs

  /** A value: a literal by its printed form, a string, an object by its identity, or something JSON cannot hold. */
  datatype Value = Literal(printed: string) | Str(s: string) | Ref(id: nat) | Unsupported

  datatype Member = Member(key: string, value: Value)

  datatype Node = ArrayNode(items: seq<Value>) | ObjectNode(members: seq<Member>)

  /** Every identity holds a node; nodes may be shared and may form cycles. */
  type Heap = nat -> Node

  /** The entries the traversal visits: array items are keyed by their printed index. */
  function Entries(n: Node): (r: seq<Member>)
    ensures |r| == if n.ArrayNode? then |n.items| else |n.members|
    ensures n.ArrayNode? ==> forall i :: 0 <= i < |r| ==> r[i] == Member(Json.Decimal(i), n.items[i])
    ensures n.ObjectNode? ==> r == n.members
  {
    match n
    case ArrayNode(items) => seq(|items|, i requires 0 <= i < |items| => Member(Json.Digits(i), items[i]))
    case ObjectNode(members) => members
  }

  // ---------------------------------------------------------------- the tree a graph unfolds to

  datatype Tree = Leaf(value: Value) | Branch(isArray: bool, children: seq<Child>)

  datatype Child = Child(key: string, tree: Tree)

  /** The tree below `v`, if it has at most `budget` levels of nesting. */
  function Unfold(heap: Heap, v: Value, budget: nat): Option<Tree>
    decreases budget, 1, 0
  {
    if !v.Ref? then Some(Leaf(v))
    else
      var cs := UnfoldAll(heap, Entries(heap(v.id)), budget);
      if cs.None? then None else Some(Branch(heap(v.id).ArrayNode?, cs.value))
  }

  function UnfoldAll(heap: Heap, es: seq<Member>, budget: nat): (r: Option<seq<Child>>)
    ensures r.Some? ==> |r.value| == |es|
    decreases budget, 0, |es|
  {
    if es == [] then Some([])
    else
      var init, last := UnfoldAll(heap, es[..|es| - 1], budget), es[|es| - 1];
      if budget == 0 || init.None? then None
      else
        var t := Unfold(heap, last.value, budget - 1);
        if t.None? then None else Some(init.value + [Child(last.key, t.value)])
  }

  function Nodes(t: Tree): (r: nat)
    ensures r > 0
    decreases t, 0
  {
    match t
    case Leaf(_) => 1
    case Branch(_, cs) => 1 + AllNodes(cs)
  }

  function AllNodes(cs: seq<Child>): nat
    decreases cs, 0
  {
    if cs == [] then 0 else AllNodes(cs[..|cs| - 1]) + Nodes(cs[|cs| - 1].tree)
  }

  function TextBytes(s: string): nat {
    |Utf8.Encode(s)|
  }

  /** A character counts as many bytes as it takes in UTF-8. */
  lemma TextBytesAre(s: string)
    ensures TextBytes(s) == if s == "" then 0 else Utf8.Width(s[0]) + TextBytes(s[1..])
  {
    Utf8.EncodedWidths(s);
  }

  /** Counted bytes: keys, strings and printed literals. */
  function Bytes(t: Tree): nat
    decreases t, 0
  {
    match t
    case Leaf(Literal(p)) => |p|
    case Leaf(Str(s)) => TextBytes(s)
    case Leaf(_) => 0
    case Branch(_, cs) => AllBytes(cs)
  }

  function AllBytes(cs: seq<Child>): nat
    decreases cs, 0
  {
    if cs == [] then 0
    else AllBytes(cs[..|cs| - 1]) + TextBytes(cs[|cs| - 1].key) + Bytes(cs[|cs| - 1].tree)
  }

  /** The literal at the very end of the traversal, which no later check covers. */
  function Trailing(t: Tree): (r: nat)
    ensures r <= Bytes(t)
    decreases t, 0
  {
    match t
    case Leaf(Literal(p)) => |p|
    case Leaf(_) => 0
    case Branch(_, cs) => AllTrailing(cs)
  }

  function AllTrailing(cs: seq<Child>): (r: nat)
    ensures r <= AllBytes(cs)
    decreases cs, 0
  {
    if cs == [] then 0 else Trailing(cs[|cs| - 1].tree)
  }

  /** Only values JSON can hold, and at most FILE_COUNT entries in a container. */
  ghost predicate Plain(t: Tree)
    decreases t, 0
  {
    match t
    case Leaf(v) => !v.Unsupported?
    case Branch(_, cs) => |cs| <= FILE_COUNT && AllPlain(cs)
  }

  ghost predicate AllPlain(cs: seq<Child>)
    decreases cs, 0
  {
    cs == [] || (AllPlain(cs[..|cs| - 1]) && Plain(cs[|cs| - 1].tree))
  }

  function Height(t: Tree): nat
    decreases t, 0
  {
    match t
    case Leaf(_) => 0
    case Branch(_, cs) => AllHeight(cs)
  }

  function AllHeight(cs: seq<Child>): nat
    decreases cs, 0
  {
    if cs == [] then 0
    else
      var init, last := AllHeight(cs[..|cs| - 1]), Height(cs[|cs| - 1].tree) + 1;
      if init > last then init else last
  }

  // ---------------------------------------------------------------- what may pass

  /** `v`, met at `depth` after `nodes` values and `bytes` bytes, unfolds to a tree within every limit. */
  ghost predicate Fits(heap: Heap, v: Value, depth: nat, nodes: nat, bytes: nat) {
    depth <= TREE_DEPTH
    && var t := Unfold(heap, v, TREE_DEPTH - depth);
       t.Some? && Plain(t.value) && nodes + Nodes(t.value) <= MAX_NODES
       && bytes + Bytes(t.value) - Trailing(t.value) <= AUDIT_ENVELOPE_BYTES
  }

  ghost predicate AllFit(heap: Heap, es: seq<Member>, depth: nat, nodes: nat, bytes: nat)
    requires depth <= TREE_DEPTH
  {
    var cs := UnfoldAll(heap, es, TREE_DEPTH - depth);
    cs.Some? && AllPlain(cs.value) && nodes + AllNodes(cs.value) <= MAX_NODES
    && (es != [] ==> bytes + AllBytes(cs.value) - AllTrailing(cs.value) <= AUDIT_ENVELOPE_BYTES)
  }

  /** The whole entry list fits exactly when all but the last fit, the last key still fits, and so does the last
      value after them. */
  lemma AllFitSnoc(heap: Heap, es: seq<Member>, depth: nat, nodes: nat, bytes: nat)
    requires es != [] && depth <= TREE_DEPTH
    ensures var init, last := es[..|es| - 1], es[|es| - 1];
            AllFit(heap, es, depth, nodes, bytes) <==>
              AllFit(heap, init, depth, nodes, bytes)
              && var cs := UnfoldAll(heap, init, TREE_DEPTH - depth).value;
                 var before := bytes + AllBytes(cs) + TextBytes(last.key);
                 before <= AUDIT_ENVELOPE_BYTES && Fits(heap, last.value, depth + 1, nodes + AllNodes(cs), before)
  {
    var init, last := es[..|es| - 1], es[|es| - 1];
    var whole := UnfoldAll(heap, es, TREE_DEPTH - depth);
    if whole.Some? {
      var cs := whole.value;
      assert cs[..|cs| - 1] == UnfoldAll(heap, init, TREE_DEPTH - depth).value;
    }
    var first := UnfoldAll(heap, init, TREE_DEPTH - depth);
    if first.Some? && depth < TREE_DEPTH && Unfold(heap, last.value, TREE_DEPTH - depth - 1).Some? {
      assert whole.value == first.value + [Child(last.key, Unfold(heap, last.value, TREE_DEPTH - depth - 1).value)];
    }
  }

  // ---------------------------------------------------------------- cycles

  /** `w` is reached from `v` in exactly `n` steps. */
  ghost predicate Reaches(heap: Heap, v: Value, w: Value, n: nat)
    decreases n
  {
    if n == 0 then v == w
    else v.Ref? && exists i :: 0 <= i < |Entries(heap(v.id))| && Reaches(heap, Entries(heap(v.id))[i].value, w, n - 1)
  }

  lemma {:induction false} ReachesSnoc(heap: Heap, v: Value, id: nat, i: nat, n: nat)
    requires Reaches(heap, v, Ref(id), n) && i < |Entries(heap(id))|
    ensures Reaches(heap, v, Entries(heap(id))[i].value, n + 1)
    decreases n
  {
    if n == 0 {
      assert Reaches(heap, Entries(heap(id))[i].value, Entries(heap(id))[i].value, 0);
    } else {
      var k :| 0 <= k < |Entries(heap(v.id))| && Reaches(heap, Entries(heap(v.id))[k].value, Ref(id), n - 1);
      ReachesSnoc(heap, Entries(heap(v.id))[k].value, id, i, n - 1);
    }
  }

  lemma {:induction false} UnfoldAllAt(heap: Heap, es: seq<Member>, budget: nat, i: nat)
    requires UnfoldAll(heap, es, budget).Some? && i < |es|
    ensures budget > 0 && Unfold(heap, es[i].value, budget - 1).Some?
    ensures UnfoldAll(heap, es, budget).value[i] == Child(es[i].key, Unfold(heap, es[i].value, budget - 1).value)
    decreases |es|
  {
    if i < |es| - 1 {
      UnfoldAllAt(heap, es[..|es| - 1], budget, i);
    }
  }

  /** Whatever a bounded value reaches is itself bounded, by what is left. */
  lemma {:induction false} ReachesUnfold(heap: Heap, v: Value, w: Value, n: nat, budget: nat)
    requires Reaches(heap, v, w, n) && Unfold(heap, v, budget).Some?
    ensures n <= budget && Unfold(heap, w, budget - n).Some?
    decreases n
  {
    if n > 0 {
      var i := ReachesStep(heap, v, w, n);
      var es := Entries(heap(v.id));
      assert UnfoldAll(heap, es, budget).Some?;
      hide *;
      UnfoldAllAt(heap, es, budget, i);
      ReachesUnfold(heap, es[i].value, w, n - 1, budget - 1);
    }
  }

  /** The first step of a path. */
  lemma ReachesStep(heap: Heap, v: Value, w: Value, n: nat) returns (i: nat)
    requires n > 0 && Reaches(heap, v, w, n)
    ensures v.Ref? && i < |Entries(heap(v.id))| && Reaches(heap, Entries(heap(v.id))[i].value, w, n - 1)
  {
    hide Entries;
    i :| 0 <= i < |Entries(heap(v.id))| && Reaches(heap, Entries(heap(v.id))[i].value, w, n - 1);
  }

  /** A value on a cycle unfolds to no finite tree. */
  lemma {:induction false} CycleNeverUnfolds(heap: Heap, v: Value, n: nat, budget: nat)
    requires n > 0 && Reaches(heap, v, v, n)
    ensures Unfold(heap, v, budget).None?
    decreases budget
  {
    if Unfold(heap, v, budget).Some? {
      ReachesUnfold(heap, v, v, n, budget);
      CycleNeverUnfolds(heap, v, n, budget - n);
    }
  }

  /** Every object on the current path leads to `v` in at least one step. */
  ghost predicate OnPath(heap: Heap, seen: set<nat>, v: Value) {
    forall id :: id in seen ==> exists n :: n > 0 && Reaches(heap, Ref(id), v, n)
  }

  lemma PathGrows(heap: Heap, seen: set<nat>, id: nat, i: nat)
    requires OnPath(heap, seen, Ref(id)) && i < |Entries(heap(id))|
    ensures OnPath(heap, seen + {id}, Entries(heap(id))[i].value)
  {
    var child := Entries(heap(id))[i].value;
    forall a | a in seen + {id}
      ensures exists n :: n > 0 && Reaches(heap, Ref(a), child, n)
    {
      if a in seen {
        var n :| n > 0 && Reaches(heap, Ref(a), Ref(id), n);
        ReachesSnoc(heap, Ref(a), id, i, n);
        assert Reaches(heap, Ref(a), child, n + 1);
      } else {
        assert Reaches(heap, Ref(a), Ref(a), 0);
        ReachesSnoc(heap, Ref(a), id, i, 0);
        assert Reaches(heap, Ref(a), child, 1);
      }
    }
  }

  // ---------------------------------------------------------------- one step of the traversal

  lemma FitsNeedsRoom(heap: Heap, v: Value, depth: nat, nodes: nat, bytes: nat)
    ensures Fits(heap, v, depth, nodes, bytes) ==> depth <= TREE_DEPTH && nodes + 1 <= MAX_NODES
  {
    hide Unfold, Plain;
  }

  /** What a value without entries counts, and when it fits. */
  lemma VisitLeaf(heap: Heap, v: Value, depth: nat, nodes: nat, bytes: nat)
    requires !v.Ref? && depth <= TREE_DEPTH
    ensures Unfold(heap, v, TREE_DEPTH - depth) == Some(Leaf(v)) && Nodes(Leaf(v)) == 1
    ensures Bytes(Leaf(v)) == match v case Literal(p) => |p| case Str(s) => TextBytes(s) case _ => 0
    ensures Fits(heap, v, depth, nodes, bytes) <==>
              nodes + 1 <= MAX_NODES && match v case Literal(_) => bytes <= AUDIT_ENVELOPE_BYTES
                                                case Str(s) => bytes + TextBytes(s) <= AUDIT_ENVELOPE_BYTES
                                                case _ => false
  {
    hide TextBytes;
  }

  /** What a container counts, and when it fits. */
  lemma VisitRef(heap: Heap, id: nat, depth: nat, nodes: nat, bytes: nat)
    requires depth <= TREE_DEPTH
    ensures var v, es := Ref(id), Entries(heap(id));
      && (Fits(heap, v, depth, nodes, bytes) ==> |es| <= FILE_COUNT)
      && (|es| <= FILE_COUNT && nodes + 1 <= MAX_NODES && bytes <= AUDIT_ENVELOPE_BYTES ==>
            (Fits(heap, v, depth, nodes, bytes) <==> AllFit(heap, es, depth, nodes + 1, bytes)))
      && (Fits(heap, v, depth, nodes, bytes) ==>
            var t := Unfold(heap, v, TREE_DEPTH - depth).value;
            Nodes(t) == 1 + NodesOf(heap, es, depth) && Bytes(t) == BytesOf(heap, es, depth))
  {
    hide UnfoldAll, Entries, AllNodes, AllPlain;
    var es := Entries(heap(id));
    assert es == [] ==> UnfoldAll(heap, es, TREE_DEPTH - depth) == Some([]) by {
      NoEntriesUnfold(heap, TREE_DEPTH - depth);
    }
  }

  lemma NoEntriesUnfold(heap: Heap, budget: nat)
    ensures UnfoldAll(heap, [], budget) == Some([])
  {
  }

  lemma CycleNeverFits(heap: Heap, v: Value, n: nat, depth: nat, nodes: nat, bytes: nat)
    requires n > 0 && Reaches(heap, v, v, n)
    ensures !Fits(heap, v, depth, nodes, bytes)
  {
    hide Reaches, Unfold, Plain;
    if depth <= TREE_DEPTH {
      CycleNeverUnfolds(heap, v, n, TREE_DEPTH - depth);
    }
  }

  // ---------------------------------------------------------------- the traversal

  datatype Issue = TooDeep | TooManyValues | TooLarge | UnsupportedValue | Cycle | TooManyEntries

  /** What a reported issue says of the value that was visited at `depth` after `nodes` values and `bytes` bytes. */
  ghost predicate Justified(heap: Heap, v: Value, depth: nat, nodes: nat, bytes: nat, issue: Issue)
    requires depth <= TREE_DEPTH + 1
  {
    match issue
    case TooDeep => HasPath(heap, v, TREE_DEPTH + 1 - depth)
    case TooManyValues =>
      depth <= TREE_DEPTH && var t := Unfold(heap, v, TREE_DEPTH - depth);
      t.Some? ==> nodes + Nodes(t.value) > MAX_NODES
    case TooLarge =>
      depth <= TREE_DEPTH && var t := Unfold(heap, v, TREE_DEPTH - depth);
      t.Some? ==> bytes + Bytes(t.value) > AUDIT_ENVELOPE_BYTES
    case _ => ReachesCause(heap, v, issue)
  }

  /** Some value that is reached is of the kind the issue names. */
  ghost predicate ReachesCause(heap: Heap, v: Value, issue: Issue) {
    exists n: nat, w :: Reaches(heap, v, w, n) && IsCause(heap, w, issue)
  }

  ghost predicate IsCause(heap: Heap, w: Value, issue: Issue) {
    match issue
    case UnsupportedValue => w.Unsupported?
    case Cycle => OnCycle(heap, w)
    case TooManyEntries => w.Ref? && |Entries(heap(w.id))| > FILE_COUNT
    case _ => false
  }

  ghost predicate OnCycle(heap: Heap, w: Value) {
    exists k: nat :: k > 0 && Reaches(heap, w, w, k)
  }

  /** The counters of one traversal. */
  class Walker {
    const heap: Heap
    var seen: set<nat>
    var nodes: nat
    var bytes: nat

    constructor (heap: Heap)
      ensures this.heap == heap && seen == {} && nodes == 0 && bytes == 0
    {
      this.heap, this.seen, this.nodes, this.bytes := heap, {}, 0, 0;
    }

    /** Visits one value. It raises no issue exactly when the value fits, and then has counted its whole tree. */
    method Visit(v: Value, depth: nat) returns (issue: Option<Issue>)
      requires depth <= TREE_DEPTH + 1 && bytes <= AUDIT_ENVELOPE_BYTES && OnPath(heap, seen, v)
      modifies this
      ensures issue.None? <==> Fits(heap, v, depth, old(nodes), old(bytes))
      ensures issue.Some? ==> Justified(heap, v, depth, old(nodes), old(bytes), issue.value)
      ensures issue.None? ==> var t := Unfold(heap, v, TREE_DEPTH - depth).value;
                              nodes == old(nodes) + Nodes(t) && bytes == old(bytes) + Bytes(t) && seen == old(seen)
      decreases TREE_DEPTH + 1 - depth, 1, 0
    {
      ghost var nodes0, bytes0 := nodes, bytes;
      FitsNeedsRoom(heap, v, depth, nodes, bytes);
      PlainlyJustified(heap, v, depth, nodes, bytes);
      hide Fits, AllFit, Unfold, UnfoldAll, Nodes, Bytes, NodesOf, BytesOf, Entries, Reaches, Justified, BlamedOn;
      if depth > TREE_DEPTH { return Some(TooDeep); }
      if v.Ref? {
        VisitRef(heap, v.id, depth, nodes, bytes);
      } else {
        VisitLeaf(heap, v, depth, nodes, bytes);
      }
      nodes := nodes + 1;
      if nodes > MAX_NODES {
        return Some(TooManyValues);
      }
      match v
      case Literal(p) =>
        bytes := bytes + |p|;
        issue := None;
      case Str(s) =>
        bytes := bytes + TextBytes(s);
        issue := if bytes > AUDIT_ENVELOPE_BYTES then Some(TooLarge) else None;
      case Unsupported =>
        issue := Some(UnsupportedValue);
      case Ref(id) =>
        if id in seen {
          ghost var n :| n > 0 && Reaches(heap, Ref(id), v, n);
          CycleNeverFits(heap, v, n, depth, nodes0, bytes0);
          CycleIsCause(heap, v, n, depth, nodes0, bytes0);
          return Some(Cycle);
        }
        seen := seen + {id};
        var entries := Entries(heap(id));
        if |entries| > FILE_COUNT { return Some(TooManyEntries); }
        issue := VisitEntries(id, entries, depth);
        if issue.None? {
          seen := seen - {id};
        } else {
          BlameRises(heap, id, depth, nodes0, bytes0, issue.value);
        }
    }

    /** Counts one key and visits the value behind it. */
    method VisitEntry(entry: Member, depth: nat) returns (issue: Option<Issue>)
      requires depth <= TREE_DEPTH && OnPath(heap, seen, entry.value)
      modifies this
      ensures var before := old(bytes) + TextBytes(entry.key);
              && (issue.None? <==>
                    before <= AUDIT_ENVELOPE_BYTES && Fits(heap, entry.value, depth + 1, old(nodes), before))
              && (issue.Some? ==> EntryIsBlamed(heap, entry, depth, old(nodes), before, issue.value))
      ensures issue.None? ==> depth < TREE_DEPTH
      ensures issue.None? ==> var t := Unfold(heap, entry.value, TREE_DEPTH - (depth + 1));
                              t.Some? && nodes == old(nodes) + Nodes(t.value) && seen == old(seen)
                              && bytes == old(bytes) + TextBytes(entry.key) + Bytes(t.value)
      decreases TREE_DEPTH + 1 - depth, 0, 0
    {
      bytes := bytes + TextBytes(entry.key);
      if bytes > AUDIT_ENVELOPE_BYTES {
        return Some(TooLarge);
      }
      issue := Visit(entry.value, depth + 1);
    }

    /** Visits the entries of an object in order. */
    method VisitEntries(id: nat, entries: seq<Member>, depth: nat) returns (issue: Option<Issue>)
      requires depth <= TREE_DEPTH && bytes <= AUDIT_ENVELOPE_BYTES && nodes <= MAX_NODES
      requires entries == Entries(heap(id)) && id in seen && OnPath(heap, seen - {id}, Ref(id))
      modifies this
      ensures issue.None? <==> AllFit(heap, entries, depth, old(nodes), old(bytes))
      ensures issue.Some? ==> BlamedOn(heap, entries, depth, old(nodes), old(bytes), issue.value)
      ensures issue.None? ==> nodes == old(nodes) + NodesOf(heap, entries, depth)
                              && bytes == old(bytes) + BytesOf(heap, entries, depth) && seen == old(seen)
      decreases TREE_DEPTH + 1 - depth, 0, 1
    {
      issue := None;
      var i := 0;
      NoEntriesFit(heap, depth, nodes, bytes);
      hide AllFit, Fits, NodesOf, BytesOf, Unfold, UnfoldAll, Nodes, Bytes, Entries, OnPath, EntryIsBlamed;
      while i < |entries|
        invariant 0 <= i <= |entries| && issue.None? && seen == old(seen)
        invariant AllFit(heap, entries[..i], depth, old(nodes), old(bytes))
        invariant nodes == old(nodes) + NodesOf(heap, entries[..i], depth)
        invariant bytes == old(bytes) + BytesOf(heap, entries[..i], depth)
      {
        EntryStep(heap, entries, i, depth, old(nodes), old(bytes));
        PathGrows(heap, seen - {id}, id, i);
        assert seen - {id} + {id} == seen;
        issue := VisitEntry(entries[i], depth);
        if issue.Some? {
          assert BlamedAt(heap, entries, i, depth, old(nodes), old(bytes), issue.value);
          return;
        }
        i := i + 1;
      }
      assert entries[..|entries|] == entries;
    }
  }

  /** The issue was met at this entry, before which `bytes` bytes and its key were counted. */
  ghost predicate EntryIsBlamed(heap: Heap, entry: Member, depth: nat, nodes: nat, bytes: nat, issue: Issue)
    requires depth <= TREE_DEPTH
  {
    (issue == TooLarge && bytes > AUDIT_ENVELOPE_BYTES) || Justified(heap, entry.value, depth + 1, nodes, bytes, issue)
  }

  /** The issue was met at some entry, after the ones before it fitted. */
  ghost predicate BlamedOn(heap: Heap, es: seq<Member>, depth: nat, nodes: nat, bytes: nat, issue: Issue)
    requires depth <= TREE_DEPTH
  {
    exists i :: 0 <= i < |es| && BlamedAt(heap, es, i, depth, nodes, bytes, issue)
  }

  ghost predicate BlamedAt(heap: Heap, es: seq<Member>, i: nat, depth: nat, nodes: nat, bytes: nat, issue: Issue)
    requires depth <= TREE_DEPTH && i < |es|
  {
    EntryIsBlamed(heap, es[i], depth, nodes + NodesOf(heap, es[..i], depth),
                  bytes + BytesOf(heap, es[..i], depth) + TextBytes(es[i].key), issue)
  }

  /** The issues of a value itself. */
  lemma PlainlyJustified(heap: Heap, v: Value, depth: nat, nodes: nat, bytes: nat)
    requires depth <= TREE_DEPTH + 1
    ensures depth == TREE_DEPTH + 1 ==> Justified(heap, v, depth, nodes, bytes, TooDeep)
    ensures depth <= TREE_DEPTH && nodes + 1 > MAX_NODES ==> Justified(heap, v, depth, nodes, bytes, TooManyValues)
    ensures v.Unsupported? ==> Justified(heap, v, depth, nodes, bytes, UnsupportedValue)
    ensures depth <= TREE_DEPTH && v.Str? && bytes + TextBytes(v.s) > AUDIT_ENVELOPE_BYTES ==>
              Justified(heap, v, depth, nodes, bytes, TooLarge)
    ensures v.Ref? && |Entries(heap(v.id))| > FILE_COUNT ==> Justified(heap, v, depth, nodes, bytes, TooManyEntries)
  {
    assert Reaches(heap, v, v, 0);
    hide Entries, TextBytes;
  }

  lemma CycleIsCause(heap: Heap, v: Value, n: nat, depth: nat, nodes: nat, bytes: nat)
    requires depth <= TREE_DEPTH + 1 && n > 0 && Reaches(heap, v, v, n)
    ensures Justified(heap, v, depth, nodes, bytes, Cycle)
  {
    assert OnCycle(heap, v) && Reaches(heap, v, v, 0);
  }

  /** What an entry is to blame for, the container is. */
  lemma BlameRises(heap: Heap, id: nat, depth: nat, nodes: nat, bytes: nat, issue: Issue)
    requires depth <= TREE_DEPTH && BlamedOn(heap, Entries(heap(id)), depth, nodes + 1, bytes, issue)
    ensures Justified(heap, Ref(id), depth, nodes, bytes, issue)
  {
    var es := Entries(heap(id));
    hide Entries, BlamedAt, Justified;
    var i :| 0 <= i < |es| && BlamedAt(heap, es, i, depth, nodes + 1, bytes, issue);
    if issue == TooManyValues || issue == TooLarge {
      CountsRise(heap, id, i, depth, nodes, bytes, issue);
    } else {
      CausesRise(heap, id, i, depth, nodes, bytes, issue);
    }
  }

  lemma CausesRise(heap: Heap, id: nat, i: nat, depth: nat, nodes: nat, bytes: nat, issue: Issue)
    requires depth <= TREE_DEPTH && issue != TooManyValues && issue != TooLarge
    requires var es := Entries(heap(id)); i < |es| && BlamedAt(heap, es, i, depth, nodes + 1, bytes, issue)
    ensures Justified(heap, Ref(id), depth, nodes, bytes, issue)
  {
    hide Entries, IsCause, NodesOf, BytesOf, TextBytes;
    var v, child := Ref(id), Entries(heap(id))[i].value;
    if issue == TooDeep {
      var w :| Reaches(heap, child, w, TREE_DEPTH - depth);
      assert Reaches(heap, v, w, TREE_DEPTH + 1 - depth);
    } else {
      var n: nat, w :| Reaches(heap, child, w, n) && IsCause(heap, w, issue);
      assert Reaches(heap, v, w, n + 1);
    }
  }

  lemma CountsRise(heap: Heap, id: nat, i: nat, depth: nat, nodes: nat, bytes: nat, issue: Issue)
    requires depth <= TREE_DEPTH && (issue == TooManyValues || issue == TooLarge)
    requires var es := Entries(heap(id)); i < |es| && BlamedAt(heap, es, i, depth, nodes + 1, bytes, issue)
    ensures Justified(heap, Ref(id), depth, nodes, bytes, issue)
  {
    var es := Entries(heap(id));
    if UnfoldAll(heap, es, TREE_DEPTH - depth).Some? {
      UnfoldAllAt(heap, es, TREE_DEPTH - depth, i);
      PartOfAll(heap, es, depth, i);
    }
    hide Entries, UnfoldAll, TextBytes, AllNodes, AllBytes;
  }

  /** A first part of the entries and the next one count no more than all of them. */
  lemma {:induction false} PartOfAll(heap: Heap, es: seq<Member>, depth: nat, i: nat)
    requires depth <= TREE_DEPTH && i < |es| && UnfoldAll(heap, es, TREE_DEPTH - depth).Some?
    ensures depth < TREE_DEPTH && Unfold(heap, es[i].value, TREE_DEPTH - depth - 1).Some?
    ensures var t, cs := Unfold(heap, es[i].value, TREE_DEPTH - depth - 1).value,
                         UnfoldAll(heap, es, TREE_DEPTH - depth).value;
      && NodesOf(heap, es[..i], depth) + Nodes(t) <= AllNodes(cs)
      && BytesOf(heap, es[..i], depth) + TextBytes(es[i].key) + Bytes(t) <= AllBytes(cs)
    decreases |es|
  {
    hide TextBytes;
    var n := |es| - 1;
    var cs := UnfoldAll(heap, es, TREE_DEPTH - depth).value;
    assert cs[..n] == UnfoldAll(heap, es[..n], TREE_DEPTH - depth).value;
    if i < n {
      PartOfAll(heap, es[..n], depth, i);
      assert es[..n][..i] == es[..i];
    }
  }

  /** What visiting the entries counts, when they unfold. */
  ghost function NodesOf(heap: Heap, es: seq<Member>, depth: nat): nat
    requires depth <= TREE_DEPTH
  {
    var cs := UnfoldAll(heap, es, TREE_DEPTH - depth);
    if cs.Some? then AllNodes(cs.value) else 0
  }

  ghost function BytesOf(heap: Heap, es: seq<Member>, depth: nat): nat
    requires depth <= TREE_DEPTH
  {
    var cs := UnfoldAll(heap, es, TREE_DEPTH - depth);
    if cs.Some? then AllBytes(cs.value) else 0
  }

  lemma NoEntriesFit(heap: Heap, depth: nat, nodes: nat, bytes: nat)
    requires depth <= TREE_DEPTH && nodes <= MAX_NODES
    ensures AllFit(heap, [], depth, nodes, bytes) && NodesOf(heap, [], depth) == 0 && BytesOf(heap, [], depth) == 0
  {
  }

  /** Taking one more entry into account. */
  lemma EntryStep(heap: Heap, es: seq<Member>, i: nat, depth: nat, nodes: nat, bytes: nat)
    requires depth <= TREE_DEPTH && i < |es| && AllFit(heap, es[..i], depth, nodes, bytes)
    ensures var before := bytes + BytesOf(heap, es[..i], depth) + TextBytes(es[i].key);
            AllFit(heap, es[..i + 1], depth, nodes, bytes) <==>
              before <= AUDIT_ENVELOPE_BYTES && Fits(heap, es[i].value, depth + 1,
                  nodes + NodesOf(heap, es[..i], depth), before)
    ensures AllFit(heap, es, depth, nodes, bytes) ==> AllFit(heap, es[..i + 1], depth, nodes, bytes)
    ensures AllFit(heap, es[..i + 1], depth, nodes, bytes) ==>
              depth < TREE_DEPTH && var t := Unfold(heap, es[i].value, TREE_DEPTH - (depth + 1));
              t.Some? && NodesOf(heap, es[..i + 1], depth) == NodesOf(heap, es[..i], depth) + Nodes(t.value)
              && BytesOf(heap, es[..i + 1], depth)
                    == BytesOf(heap, es[..i], depth) + TextBytes(es[i].key) + Bytes(t.value)
  {
    var more := es[..i + 1];
    assert more[..i] == es[..i] && more[i] == es[i];
    AllFitSnoc(heap, more, depth, nodes, bytes);
    AllFitPrefix(heap, es, depth, nodes, bytes, i + 1);
    if AllFit(heap, more, depth, nodes, bytes) {
      var cs := UnfoldAll(heap, more, TREE_DEPTH - depth).value;
      assert cs[..|cs| - 1] == UnfoldAll(heap, es[..i], TREE_DEPTH - depth).value;
    }
  }

  /** If all entries fit, the first ones do. */
  lemma {:induction false} AllFitPrefix(heap: Heap, es: seq<Member>, depth: nat, nodes: nat, bytes: nat, n: nat)
    requires depth <= TREE_DEPTH && n <= |es|
    ensures AllFit(heap, es, depth, nodes, bytes) ==> AllFit(heap, es[..n], depth, nodes, bytes)
    decreases |es|
  {
    if n < |es| {
      AllFitSnoc(heap, es, depth, nodes, bytes);
      AllFitPrefix(heap, es[..|es| - 1], depth, nodes, bytes, n);
      assert es[..|es| - 1][..n] == es[..n];
    } else {
      assert es[..n] == es;
    }
  }

  /** `boundedJsonIssue`: it terminates on every graph and accepts exactly the values that unfold to a
      tree within every limit. */
  method BoundedJsonIssue(heap: Heap, v: Value) returns (issue: Option<Issue>)
    ensures issue.None? <==> Fits(heap, v, 0, 0, 0)
    ensures issue.Some? ==> Justified(heap, v, 0, 0, 0, issue.value)
  {
    var walker := new Walker(heap);
    issue := walker.Visit(v, 0);
  }

  // ---------------------------------------------------------------- what acceptance means

  /** Some path of `n` steps starts at `v`. */
  ghost predicate HasPath(heap: Heap, v: Value, n: nat) {
    exists w :: Reaches(heap, v, w, n)
  }

  /** A value unfolds within a budget exactly when no path from it is longer than the budget. */
  lemma {:induction false} UnfoldsIffShort(heap: Heap, v: Value, budget: nat)
    ensures Unfold(heap, v, budget).Some? <==> !HasPath(heap, v, budget + 1)
    decreases budget
  {
    if Unfold(heap, v, budget).Some? {
      if HasPath(heap, v, budget + 1) {
        var n := budget + 1;
        var w :| Reaches(heap, v, w, n);
        ReachesUnfold(heap, v, w, n, budget);
      }
    } else {
      var i := UnfoldAllFails(heap, Entries(heap(v.id)), budget);
      var child := Entries(heap(v.id))[i].value;
      if budget == 0 {
        assert Reaches(heap, child, child, 0);
        assert Reaches(heap, v, child, 1);
      } else {
        UnfoldsIffShort(heap, child, budget - 1);
        var w :| Reaches(heap, child, w, budget);
        assert Reaches(heap, v, w, budget + 1);
      }
    }
  }

  lemma {:induction false} UnfoldAllFails(heap: Heap, es: seq<Member>, budget: nat) returns (i: nat)
    requires UnfoldAll(heap, es, budget).None?
    ensures i < |es| && (budget == 0 || Unfold(heap, es[i].value, budget - 1).None?)
    decreases |es|
  {
    if UnfoldAll(heap, es[..|es| - 1], budget).None? {
      i := UnfoldAllFails(heap, es[..|es| - 1], budget);
    } else {
      i := |es| - 1;
    }
  }

  lemma {:induction false} UnfoldHeight(heap: Heap, v: Value, budget: nat)
    requires Unfold(heap, v, budget).Some?
    ensures Height(Unfold(heap, v, budget).value) <= budget
    decreases budget, 1, 0
  {
    if v.Ref? {
      UnfoldAllHeight(heap, Entries(heap(v.id)), budget);
    }
  }

  lemma {:induction false} UnfoldAllHeight(heap: Heap, es: seq<Member>, budget: nat)
    requires UnfoldAll(heap, es, budget).Some?
    ensures AllHeight(UnfoldAll(heap, es, budget).value) <= budget
    decreases budget, 0, |es|
  {
    if es != [] {
      UnfoldAllHeight(heap, es[..|es| - 1], budget);
      UnfoldHeight(heap, es[|es| - 1].value, budget - 1);
      var cs := UnfoldAll(heap, es, budget).value;
      assert cs[..|cs| - 1] == UnfoldAll(heap, es[..|es| - 1], budget).value;
    }
  }

  /** An accepted value reaches no cycle, nests at most twelve deep, and keeps every count; its counted
      bytes exceed the limit by at most the literal at the very end. */
  lemma AcceptedIsBounded(heap: Heap, v: Value, w: Value, n: nat, k: nat)
    requires Fits(heap, v, 0, 0, 0)
    ensures Reaches(heap, v, w, n) ==> n <= 12 && (Reaches(heap, w, w, k) ==> k == 0)
    ensures Reaches(heap, v, w, n) ==> !w.Unsupported? && (w.Ref? ==> |Entries(heap(w.id))| <= 256)
    ensures var t := Unfold(heap, v, TREE_DEPTH);
            t.Some? && (Reaches(heap, v, w, n) ==> n <= Height(t.value)) && Height(t.value) <= 12
            && Plain(t.value) && Nodes(t.value) <= 2048
            && Bytes(t.value) <= 256 * 1024 + Trailing(t.value)
  {
    UnfoldHeight(heap, v, TREE_DEPTH);
    if Reaches(heap, v, w, n) {
      ReachesUnfold(heap, v, w, n, TREE_DEPTH);
      ReachesPlain(heap, v, w, n, TREE_DEPTH);
      ReachesHeight(heap, v, w, n, TREE_DEPTH);
      if k > 0 && Reaches(heap, w, w, k) {
        CycleNeverUnfolds(heap, w, k, TREE_DEPTH - n);
      }
    }
  }

  /** What is reached from a value with a plain tree is plain. */
  lemma {:induction false} ReachesPlain(heap: Heap, v: Value, w: Value, n: nat, budget: nat)
    requires Reaches(heap, v, w, n) && Unfold(heap, v, budget).Some? && Plain(Unfold(heap, v, budget).value)
    ensures !w.Unsupported? && (w.Ref? ==> |Entries(heap(w.id))| <= FILE_COUNT)
    decreases n
  {
    if n > 0 {
      var i := ReachesStep(heap, v, w, n);
      var es := Entries(heap(v.id));
      var cs := UnfoldAll(heap, es, budget).value;
      assert UnfoldAll(heap, es, budget).Some? && AllPlain(cs);
      hide *;
      UnfoldAllAt(heap, es, budget, i);
      PlainAt(cs, i);
      ReachesPlain(heap, es[i].value, w, n - 1, budget - 1);
    }
  }

  /** No path is longer than the tree is high. */
  lemma {:induction false} ReachesHeight(heap: Heap, v: Value, w: Value, n: nat, budget: nat)
    requires Reaches(heap, v, w, n) && Unfold(heap, v, budget).Some?
    ensures n <= Height(Unfold(heap, v, budget).value)
    decreases n
  {
    if n > 0 {
      var i := ReachesStep(heap, v, w, n);
      var es := Entries(heap(v.id));
      var cs := UnfoldAll(heap, es, budget).value;
      assert UnfoldAll(heap, es, budget).Some? && Height(Unfold(heap, v, budget).value) == AllHeight(cs);
      hide *;
      UnfoldAllAt(heap, es, budget, i);
      HeightAt(cs, i);
      ReachesHeight(heap, es[i].value, w, n - 1, budget - 1);
    }
  }

  lemma {:induction false} HeightAt(cs: seq<Child>, i: nat)
    requires i < |cs|
    ensures Height(cs[i].tree) < AllHeight(cs)
  {
    if i < |cs| - 1 {
      HeightAt(cs[..|cs| - 1], i);
    }
  }

  lemma {:induction false} PlainAt(cs: seq<Child>, i: nat)
    requires AllPlain(cs) && i < |cs|
    ensures Plain(cs[i].tree)
  {
    if i < |cs| - 1 {
      PlainAt(cs[..|cs| - 1], i);
    }
  }

  // ---------------------------------------------------------------- credential-shaped keys

  function LowerChar(c: char): char {
    if 'A' <= c <= 'Z' then (c as int + 32) as char else c
  }

  function Lower(s: string): (r: string)
    ensures |r| == |s|
  {
    seq(|s|, i requires 0 <= i < |s| => LowerChar(s[i]))
  }

  const SECRET_WORDS := ["token", "secret", "password", "privatekey", "private_key", "private-key",
                         "apikey", "api_key", "api-key", "authorization", "cookie"]
  const REFERENCE_HEADS := ["credential", "token", "secret", "password", "privatekey", "private_key", "private-key",
                            "apikey", "api_key", "api-key"]
  const REFERENCE_TAILS := ["ref", "_ref", "-ref", "id", "_id", "-id"]

  predicate IncludesOneOf(s: string, words: seq<string>) {
    words != [] && (Includes(s, words[0]) || IncludesOneOf(s, words[1..]))
  }

  predicate IsHeadAndTail(s: string, heads: seq<string>, tails: seq<string>) {
    heads != [] && ((heads[0] <= s && s[|heads[0]|..] in tails) || IsHeadAndTail(s, heads[1..], tails))
  }

  /** The key names raw secret material: it contains a secret word and is not, as a whole, an opaque
      reference (a head, an optional separator, and `ref` or `id`). */
  predicate IsCredentialShaped(key: string) {
    IncludesOneOf(Lower(key), SECRET_WORDS) && !IsHeadAndTail(Lower(key), REFERENCE_HEADS, REFERENCE_TAILS)
  }

  /** `hasCredentialShapedKey`: too deep counts as unsafe; array indices are not keys. */
  function HasCredentialShapedKey(heap: Heap, v: Value, depth: nat): bool
    decreases TREE_DEPTH + 1 - depth, 1, 0
  {
    if depth > TREE_DEPTH then true
    else if !v.Ref? then false
    else AnyCredential(heap, Entries(heap(v.id)), heap(v.id).ArrayNode?, depth)
  }

  function AnyCredential(heap: Heap, es: seq<Member>, isArray: bool, depth: nat): bool
    requires depth <= TREE_DEPTH
    decreases TREE_DEPTH + 1 - depth, 0, |es|
  {
    if es == [] then false
    else
      var init, last := es[..|es| - 1], es[|es| - 1];
      AnyCredential(heap, init, isArray, depth)
      || (!isArray && IsCredentialShaped(last.key))
      || HasCredentialShapedKey(heap, last.value, depth + 1)
  }

  /** Somewhere in the tree an object has a credential-shaped key. */
  ghost predicate TreeHasCredential(t: Tree)
    decreases t, 0
  {
    match t
    case Leaf(_) => false
    case Branch(isArray, cs) => SomeCredential(cs, isArray)
  }

  ghost predicate SomeCredential(cs: seq<Child>, isArray: bool)
    decreases cs, 0
  {
    cs != []
    && (SomeCredential(cs[..|cs| - 1], isArray)
        || (!isArray && IsCredentialShaped(cs[|cs| - 1].key))
        || TreeHasCredential(cs[|cs| - 1].tree))
  }

  // What makes a key credential-shaped, said by positions and letters.

  /** `c` is the letter `w` in either case, or the same character. */
  ghost predicate SameLetter(c: char, w: char) {
    c == w || ('a' <= w <= 'z' && c as int + 32 == w as int)
  }

  /** From position `i` on `s` reads as `word`. */
  ghost predicate ReadsAs(s: string, i: int, word: string) {
    0 <= i && i + |word| <= |s| && forall j :: 0 <= j < |word| ==> SameLetter(s[i + j], word[j])
  }

  ghost function Gaps(): set<string> { {"", "_", "-"} }

  /** Words that are spelled in one, with an underscore, or with a hyphen. */
  ghost function KeyWords(): set<string> {
    set a, gap | a in {"private", "api"} && gap in Gaps() :: a + gap + "key"
  }

  ghost function Words(): set<string> {
    {"token", "secret", "password", "authorization", "cookie"} + KeyWords()
  }

  ghost function Heads(): set<string> {
    {"credential", "token", "secret", "password"} + KeyWords()
  }

  ghost function Tails(): set<string> {
    set gap, tail | gap in Gaps() && tail in {"ref", "id"} :: gap + tail
  }

  /** The key as a whole reads as a head and a tail. */
  ghost predicate IsReference(key: string) {
    exists head, tail :: head in Heads() && tail in Tails() && |key| == |head + tail| && ReadsAs(key, 0, head + tail)
  }

  /** A secret word stands somewhere in the key, and the key is not an opaque reference. */
  ghost predicate NamesCredential(key: string) {
    (exists word, i :: word in Words() && ReadsAs(key, i, word)) && !IsReference(key)
  }

  ghost predicate NoCapitals(word: string) {
    forall j :: 0 <= j < |word| ==> !('A' <= word[j] <= 'Z')
  }

  lemma ReadsLower(key: string, i: int, word: string)
    requires NoCapitals(word)
    ensures ReadsAs(key, i, word) <==> OccursAt(Lower(key), word, i)
  {
    if 0 <= i && i + |word| <= |key| {
      var piece := Lower(key)[i..i + |word|];
      forall j | 0 <= j < |word|
        ensures SameLetter(key[i + j], word[j]) <==> piece[j] == word[j]
      {
      }
      assert piece == word <==> forall j :: 0 <= j < |word| ==> piece[j] == word[j];
    }
  }

  lemma {:induction false} IncludesOneIff(s: string, words: seq<string>)
    ensures IncludesOneOf(s, words) <==> exists k :: 0 <= k < |words| && Contains(s, words[k])
  {
    if words != [] {
      var rest := words[1..];
      IncludesOneIff(s, rest);
      hide Contains;
      if k :| 0 <= k < |rest| && Contains(s, rest[k]) {
        assert words[k + 1] == rest[k];
      }
      if k :| 0 <= k < |words| && Contains(s, words[k]) {
        assert k > 0 ==> rest[k - 1] == words[k];
      }
    }
  }

  lemma {:induction false} HeadAndTailIff(s: string, heads: seq<string>, tails: seq<string>)
    ensures IsHeadAndTail(s, heads, tails) <==>
            exists k, l :: 0 <= k < |heads| && 0 <= l < |tails| && s == heads[k] + tails[l]
  {
    if heads != [] {
      var rest := heads[1..];
      HeadAndTailIff(s, rest, tails);
      if heads[0] <= s && s[|heads[0]|..] in tails {
        var l :| 0 <= l < |tails| && tails[l] == s[|heads[0]|..];
        assert s == heads[0] + tails[l];
      }
      if k, l :| 0 <= k < |rest| && 0 <= l < |tails| && s == rest[k] + tails[l] {
        assert heads[k + 1] == rest[k];
      }
      if k, l :| 0 <= k < |heads| && 0 <= l < |tails| && s == heads[k] + tails[l] {
        if k == 0 {
          assert s[|heads[0]|..] == tails[l];
        } else {
          assert rest[k - 1] == heads[k];
        }
      }
    }
  }

  ghost function Listed(words: seq<string>): set<string> {
    set k | 0 <= k < |words| :: words[k]
  }

  lemma InListed(words: seq<string>)
    ensures forall k :: 0 <= k < |words| ==> words[k] in Listed(words)
    ensures forall word :: word in Listed(words) ==> exists k :: 0 <= k < |words| && words[k] == word
  {
  }

  /** The lists are the spellings. */
  lemma ListsAreSpellings()
    ensures Listed(SECRET_WORDS) == Words() && Listed(REFERENCE_HEADS) == Heads() && Listed(REFERENCE_TAILS) == Tails()
    ensures forall word :: word in Words() || word in Heads() || word in Tails() ==> NoCapitals(word)
  {
    SecretWordsAre();
    HeadsAre();
    TailsAre();
    CapitalFree();
  }

  lemma SecretWordsAre()
    ensures Listed(SECRET_WORDS) == Words()
  {
    KeyWordsAre();
    var all := SECRET_WORDS;
    InListed(all);
    hide Listed, KeyWords;
    assert all[0] == "token" && all[1] == "secret" && all[2] == "password" && all[3] == "privatekey"
           && all[4] == "private_key" && all[5] == "private-key" && all[6] == "apikey" && all[7] == "api_key"
           && all[8] == "api-key" && all[9] == "authorization" && all[10] == "cookie";
  }

  lemma HeadsAre()
    ensures Listed(REFERENCE_HEADS) == Heads()
  {
    KeyWordsAre();
    var all := REFERENCE_HEADS;
    InListed(all);
    hide Listed, KeyWords;
    assert all[0] == "credential" && all[1] == "token" && all[2] == "secret" && all[3] == "password"
           && all[4] == "privatekey" && all[5] == "private_key" && all[6] == "private-key" && all[7] == "apikey"
           && all[8] == "api_key" && all[9] == "api-key";
  }

  lemma CapitalFree()
    ensures forall word :: word in Words() || word in Heads() || word in Tails() ==> NoCapitals(word)
  {
    KeyWordsAre();
    TailSpellings();
    hide KeyWords, Tails;
  }

  lemma KeyWordsAre()
    ensures KeyWords() == {"privatekey", "private_key", "private-key", "apikey", "api_key", "api-key"}
  {
    assert "private" + "" + "key" == "privatekey" && "private" + "_" + "key" == "private_key";
    assert "private" + "-" + "key" == "private-key" && "api" + "" + "key" == "apikey";
    assert "api" + "_" + "key" == "api_key" && "api" + "-" + "key" == "api-key";
  }

  lemma TailSpellings()
    ensures Tails() == {"ref", "_ref", "-ref", "id", "_id", "-id"}
  {
    assert "" + "ref" == "ref" && "_" + "ref" == "_ref" && "-" + "ref" == "-ref";
    assert "" + "id" == "id" && "_" + "id" == "_id" && "-" + "id" == "-id";
  }

  lemma TailsAre()
    ensures Listed(REFERENCE_TAILS) == Tails()
  {
    TailSpellings();
    var all := REFERENCE_TAILS;
    InListed(all);
    hide Listed, Tails;
    assert all[0] == "ref" && all[1] == "_ref" && all[2] == "-ref" && all[3] == "id" && all[4] == "_id"
           && all[5] == "-id";
  }

  lemma SecretIff(key: string)
    requires Listed(SECRET_WORDS) == Words() && forall word :: word in Words() ==> NoCapitals(word)
    ensures (exists k :: 0 <= k < |SECRET_WORDS| && Contains(Lower(key), SECRET_WORDS[k])) <==>
            exists word, i :: word in Words() && ReadsAs(key, i, word)
  {
    hide Words, SECRET_WORDS, ReadsAs, Lower, NoCapitals;
    if k :| 0 <= k < |SECRET_WORDS| && Contains(Lower(key), SECRET_WORDS[k]) {
      var word := SECRET_WORDS[k];
      assert word in Listed(SECRET_WORDS);
      var i :| OccursAt(Lower(key), word, i);
      ReadsLower(key, i, word);
    }
    if word, i :| word in Words() && ReadsAs(key, i, word) {
      ReadsLower(key, i, word);
      assert word in Listed(SECRET_WORDS);
    }
  }

  lemma ReferenceIff(key: string)
    requires Listed(REFERENCE_HEADS) == Heads() && Listed(REFERENCE_TAILS) == Tails()
    requires forall word :: word in Heads() || word in Tails() ==> NoCapitals(word)
    ensures IsReference(key) <==>
            exists k, l :: 0 <= k < |REFERENCE_HEADS| && 0 <= l < |REFERENCE_TAILS|
                           && Lower(key) == REFERENCE_HEADS[k] + REFERENCE_TAILS[l]
  {
    hide Heads, Tails, REFERENCE_HEADS, REFERENCE_TAILS, ReadsAs, Lower;
    forall head, tail | head in Heads() && tail in Tails()
      ensures |key| == |head + tail| && ReadsAs(key, 0, head + tail) <==> Lower(key) == head + tail
    {
      WholeReads(key, head + tail);
    }
    if k, l :| 0 <= k < |REFERENCE_HEADS| && 0 <= l < |REFERENCE_TAILS|
               && Lower(key) == REFERENCE_HEADS[k] + REFERENCE_TAILS[l] {
      assert REFERENCE_HEADS[k] in Listed(REFERENCE_HEADS) && REFERENCE_TAILS[l] in Listed(REFERENCE_TAILS);
    }
    if head, tail :| head in Heads() && tail in Tails() && |key| == |head + tail| && ReadsAs(key, 0, head + tail) {
      assert head in Listed(REFERENCE_HEADS) && tail in Listed(REFERENCE_TAILS);
    }
  }

  lemma WholeReads(key: string, word: string)
    requires NoCapitals(word)
    ensures |key| == |word| && ReadsAs(key, 0, word) <==> Lower(key) == word
  {
    ReadsLower(key, 0, word);
    hide ReadsAs, NoCapitals;
    if |key| == |word| {
      assert Lower(key)[0..0 + |word|] == Lower(key);
    }
  }

  lemma CredentialIff(key: string)
    ensures IsCredentialShaped(key) <==> NamesCredential(key)
  {
    var low := Lower(key);
    IncludesOneIff(low, SECRET_WORDS);
    HeadAndTailIff(low, REFERENCE_HEADS, REFERENCE_TAILS);
    ListsAreSpellings();
    assert IsCredentialShaped(key) <==>
      IncludesOneOf(low, SECRET_WORDS) && !IsHeadAndTail(low, REFERENCE_HEADS, REFERENCE_TAILS);
    assert NamesCredential(key) <==> (exists word, i :: word in Words() && ReadsAs(key, i, word)) && !IsReference(key);
    hide *;
    SecretIff(key);
    ReferenceIff(key);
  }

  /** On a value that unfolds in time the scan is exact: its depth guard never fires. */
  lemma {:induction false} ScanIsExact(heap: Heap, v: Value, depth: nat)
    requires depth <= TREE_DEPTH && Unfold(heap, v, TREE_DEPTH - depth).Some?
    ensures HasCredentialShapedKey(heap, v, depth) <==> TreeHasCredential(Unfold(heap, v, TREE_DEPTH - depth).value)
    decreases TREE_DEPTH + 1 - depth, 1, 0
  {
    if v.Ref? {
      ScanAllIsExact(heap, Entries(heap(v.id)), heap(v.id).ArrayNode?, depth);
    }
  }

  lemma {:induction false} ScanAllIsExact(heap: Heap, es: seq<Member>, isArray: bool, depth: nat)
    requires depth <= TREE_DEPTH && UnfoldAll(heap, es, TREE_DEPTH - depth).Some?
    ensures AnyCredential(heap, es, isArray, depth)
            <==> SomeCredential(UnfoldAll(heap, es, TREE_DEPTH - depth).value, isArray)
    decreases TREE_DEPTH + 1 - depth, 0, |es|
  {
    hide IsCredentialShaped;
    if es != [] {
      var init, last := es[..|es| - 1], es[|es| - 1];
      ScanAllIsExact(heap, init, isArray, depth);
      ScanIsExact(heap, last.value, depth + 1);
      var cs := UnfoldAll(heap, es, TREE_DEPTH - depth).value;
      assert cs[..|cs| - 1] == UnfoldAll(heap, init, TREE_DEPTH - depth).value;
    }
  }

  /** Accepted configuration is scanned exactly: the scan that follows reports a credential-shaped key
      just when the configuration has one. */
  lemma AcceptedIsScannedExactly(heap: Heap, v: Value)
    requires Fits(heap, v, 0, 0, 0)
    ensures HasCredentialShapedKey(heap, v, 0) <==> TreeHasCredential(Unfold(heap, v, TREE_DEPTH).value)
  {
    ScanIsExact(heap, v, 0);
  }

  // ---------------------------------------------------------------- where the scan finds a key

  /** Some object reached from `v` has a credential-shaped key. */
  ghost predicate ReachesCredential(heap: Heap, v: Value) {
    exists n: nat, id :: Reaches(heap, v, Ref(id), n) && HoldsCredential(heap(id))
  }

  ghost predicate HoldsCredential(node: Node) {
    node.ObjectNode? && exists i :: 0 <= i < |node.members| && NamesCredential(node.members[i].key)
  }

  lemma {:induction false} AnyCredentialIff(heap: Heap, es: seq<Member>, isArray: bool, depth: nat)
    requires depth <= TREE_DEPTH
    ensures AnyCredential(heap, es, isArray, depth) <==>
      || (!isArray && exists i :: 0 <= i < |es| && IsCredentialShaped(es[i].key))
      || exists i :: 0 <= i < |es| && HasCredentialShapedKey(heap, es[i].value, depth + 1)
    decreases |es|
  {
    hide IsCredentialShaped, HasCredentialShapedKey;
    if es != [] {
      var init := es[..|es| - 1];
      AnyCredentialIff(heap, init, isArray, depth);
      assert forall i :: 0 <= i < |init| ==> init[i] == es[i];
    }
  }

  /** The scan of an accepted configuration reports a key exactly when some object that is reached has one in which a
      secret word can be read, in either case, and which is not as a whole an opaque reference. */
  lemma ScanFindsExactly(heap: Heap, v: Value)
    requires Fits(heap, v, 0, 0, 0)
    ensures HasCredentialShapedKey(heap, v, 0) <==> ReachesCredential(heap, v)
  {
    ScanFinds(heap, v, 0);
  }

  lemma {:induction false} ScanFinds(heap: Heap, v: Value, depth: nat)
    requires depth <= TREE_DEPTH && Unfold(heap, v, TREE_DEPTH - depth).Some?
    ensures HasCredentialShapedKey(heap, v, depth) <==> ReachesCredential(heap, v)
    decreases TREE_DEPTH - depth
  {
    if v.Ref? {
      var es := Entries(heap(v.id));
      assert UnfoldAll(heap, es, TREE_DEPTH - depth).Some?;
      hide *;
      forall i | 0 <= i < |es|
        ensures HasCredentialShapedKey(heap, es[i].value, depth + 1) <==> ReachesCredential(heap, es[i].value)
      {
        UnfoldAllAt(heap, es, TREE_DEPTH - depth, i);
        ScanFinds(heap, es[i].value, depth + 1);
      }
      ScanStep(heap, v.id, depth);
    } else {
      NothingReached(heap, v);
    }
  }

  /** The scan of an object or array, given that of its entries. */
  lemma ScanStep(heap: Heap, id: nat, depth: nat)
    requires depth <= TREE_DEPTH
    requires var es := Entries(heap(id)); forall i :: 0 <= i < |es| ==>
               (HasCredentialShapedKey(heap, es[i].value, depth + 1) <==> ReachesCredential(heap, es[i].value))
    ensures HasCredentialShapedKey(heap, Ref(id), depth) <==> ReachesCredential(heap, Ref(id))
  {
    var es, isArray := Entries(heap(id)), heap(id).ArrayNode?;
    assert HasCredentialShapedKey(heap, Ref(id), depth) == AnyCredential(heap, es, isArray, depth);
    assert HoldsCredential(heap(id)) <==> !isArray && exists i :: 0 <= i < |es| && NamesCredential(es[i].key);
    AnyCredentialIff(heap, es, isArray, depth);
    CredentialReached(heap, id);
    hide *;
    forall i | 0 <= i < |es|
      ensures IsCredentialShaped(es[i].key) <==> NamesCredential(es[i].key)
    {
      CredentialIff(es[i].key);
    }
  }

  /** Step by step. */
  lemma CredentialReached(heap: Heap, id: nat)
    ensures var es := Entries(heap(id));
      ReachesCredential(heap, Ref(id)) <==>
        HoldsCredential(heap(id)) || exists i :: 0 <= i < |es| && ReachesCredential(heap, es[i].value)
  {
    hide HoldsCredential, Entries;
    var v, es := Ref(id), Entries(heap(id));
    if HoldsCredential(heap(id)) {
      assert Reaches(heap, v, Ref(id), 0);
    }
    if i :| 0 <= i < |es| && ReachesCredential(heap, es[i].value) {
      var n: nat, x :| Reaches(heap, es[i].value, Ref(x), n) && HoldsCredential(heap(x));
      assert Reaches(heap, v, Ref(x), n + 1);
    }
    if n: nat, x :| Reaches(heap, v, Ref(x), n) && HoldsCredential(heap(x)) {
      if n > 0 {
        var i :| 0 <= i < |es| && Reaches(heap, es[i].value, Ref(x), n - 1);
        assert ReachesCredential(heap, es[i].value);
      }
    }
  }

  lemma NothingReached(heap: Heap, v: Value)
    requires !v.Ref?
    ensures !ReachesCredential(heap, v)
  {
    hide HoldsCredential;
  }
}
