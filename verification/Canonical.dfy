/** The canonical form of capability sync frames (shared/capability-management.ts). */
module Canonical {
  import opened StringOrder
  import Json

  /** A JavaScript value: unlike JSON it may be undefined. */
  datatype JsValue =
    | Undef
    | Null
    | Bool(flag: bool)
    | Num(n: int)
    | Str(text: string)
    | Arr(items: seq<JsValue>)
    | Obj(props: seq<Keyed<JsValue>>)

  /** No object has a key twice. */
  ghost predicate WellFormed(v: JsValue)
    decreases v
  {
    match v
    case Arr(items) => forall i :: 0 <= i < |items| ==> WellFormed(items[i])
    case Obj(props) => DistinctKeys(props) && forall i :: 0 <= i < |props| ==> WellFormed(props[i].value)
    case _ => true
  }

  // ---------------------------------------------------------------- canonicalisation

  /** `canonicalCapabilitySyncValue`: keys alone decide the order, so entries are converted before sorting. */
  function Canon(v: JsValue): JsValue
    decreases v
  {
    match v
    case Arr(items) => Arr(CanonItems(items))
    case Obj(props) => Obj(Sort(CanonProps(props)))
    case _ => v
  }

  function CanonItems(items: seq<JsValue>): (r: seq<JsValue>)
    ensures |r| == |items|
    decreases items
  {
    if items == [] then [] else [Canon(items[0])] + CanonItems(items[1..])
  }

  /** The defined entries, converted. */
  function CanonProps(props: seq<Keyed<JsValue>>): seq<Keyed<JsValue>>
    decreases props
  {
    if props == [] then []
    else if props[0].value.Undef? then CanonProps(props[1..])
    else [Keyed(props[0].key, Canon(props[0].value))] + CanonProps(props[1..])
  }

  // ---------------------------------------------------------------- what it must not distinguish

  /** The object has a defined entry under this key. */
  ghost predicate Defines(props: seq<Keyed<JsValue>>, key: string) {
    exists i :: 0 <= i < |props| && props[i].key == key && !props[i].value.Undef?
  }

  /** The values differ at most in the order of object keys and in undefined-valued entries, at any depth. */
  ghost predicate Equiv(v: JsValue, w: JsValue)
    decreases v
  {
    match (v, w)
    case (Arr(xs), Arr(ys)) => |xs| == |ys| && forall i :: 0 <= i < |xs| ==> Equiv(xs[i], ys[i])
    case (Obj(ps), Obj(qs)) =>
      && (forall key :: Defines(ps, key) <==> Defines(qs, key))
      && (forall i, j | 0 <= i < |ps| && 0 <= j < |qs| && ps[i].key == qs[j].key && !ps[i].value.Undef?
            && !qs[j].value.Undef?
            :: Equiv(ps[i].value, qs[j].value))
    case _ => v == w
  }

  // ---------------------------------------------------------------- lists

  lemma {:induction false} CanonItemsAt(items: seq<JsValue>, i: nat)
    requires i < |items|
    ensures CanonItems(items)[i] == Canon(items[i])
  {
    if i > 0 {
      CanonItemsAt(items[1..], i - 1);
    }
  }

  ghost predicate Converts(props: seq<Keyed<JsValue>>, i: int, x: Keyed<JsValue>) {
    0 <= i < |props| && !props[i].value.Undef? && x == Keyed(props[i].key, Canon(props[i].value))
  }

  lemma {:induction false} CanonPropsElements(props: seq<Keyed<JsValue>>, x: Keyed<JsValue>)
    ensures x in CanonProps(props) <==> exists i :: Converts(props, i, x)
  {
    hide Canon;
    if props != [] {
      var rest := props[1..];
      CanonPropsElements(rest, x);
      if i :| Converts(rest, i, x) {
        assert Converts(props, i + 1, x);
      }
      if i :| Converts(props, i, x) {
        if i > 0 {
          assert Converts(rest, i - 1, x);
        }
      }
      assert !props[0].value.Undef? ==> Converts(props, 0, Keyed(props[0].key, Canon(props[0].value)));
    }
  }

  lemma {:induction false} CanonPropsDistinct(props: seq<Keyed<JsValue>>)
    requires DistinctKeys(props)
    ensures DistinctKeys(CanonProps(props))
  {
    hide Canon;
    if props != [] {
      var rest := props[1..];
      CanonPropsDistinct(rest);
      var r := CanonProps(rest);
      forall i | 0 <= i < |r|
        ensures r[i].key != props[0].key
      {
        assert r[i] in r;
        CanonPropsElements(rest, r[i]);
        var k :| Converts(rest, k, r[i]);
        assert props[0].key != props[k + 1].key;
      }
    }
  }

  // ---------------------------------------------------------------- the theorem

  /** Two values have the same canonical form exactly when they differ only in object key order and
      undefined-valued entries. */
  lemma {:induction false} CanonIsExact(v: JsValue, w: JsValue)
    requires WellFormed(v) && WellFormed(w)
    ensures Canon(v) == Canon(w) <==> Equiv(v, w)
    decreases v
  {
    if v.Arr? && w.Arr? {
      ExactItems(v, w);
    } else if v.Obj? && w.Obj? {
      if Equiv(v, w) {
        EquivSame(v, w);
      }
      if Canon(v) == Canon(w) {
        SameEquiv(v, w);
      }
    }
  }

  lemma {:induction false} ExactItems(v: JsValue, w: JsValue)
    requires v.Arr? && w.Arr? && WellFormed(v) && WellFormed(w)
    ensures Canon(v) == Canon(w) <==> Equiv(v, w)
    decreases v, 0
  {
    var xs, ys := v.items, w.items;
    if |xs| == |ys| {
      forall i | 0 <= i < |xs|
        ensures CanonItems(xs)[i] == CanonItems(ys)[i] <==> Equiv(xs[i], ys[i])
      {
        CanonItemsAt(xs, i);
        CanonItemsAt(ys, i);
        CanonIsExact(xs[i], ys[i]);
      }
    }
  }

  lemma {:induction false} EquivSame(v: JsValue, w: JsValue)
    requires v.Obj? && w.Obj? && WellFormed(v) && WellFormed(w) && Equiv(v, w)
    ensures Canon(v) == Canon(w)
    decreases v, 0
  {
    var ps, qs := v.props, w.props;
    CanonPropsDistinct(ps);
    CanonPropsDistinct(qs);
    forall x: Keyed<JsValue>
      ensures x in CanonProps(ps) <==> x in CanonProps(qs)
    {
      CanonPropsElements(ps, x);
      CanonPropsElements(qs, x);
      if i :| Converts(ps, i, x) {
        assert Defines(ps, ps[i].key);
        var j :| 0 <= j < |qs| && qs[j].key == ps[i].key && !qs[j].value.Undef?;
        CanonIsExact(ps[i].value, qs[j].value);
        assert Converts(qs, j, x);
      }
      if j :| Converts(qs, j, x) {
        assert Defines(qs, qs[j].key);
        var i :| 0 <= i < |ps| && ps[i].key == qs[j].key && !ps[i].value.Undef?;
        CanonIsExact(ps[i].value, qs[j].value);
        assert Converts(ps, i, x);
      }
    }
    SortOfSameElements(CanonProps(ps), CanonProps(qs));
  }

  lemma {:induction false} SameEquiv(v: JsValue, w: JsValue)
    requires v.Obj? && w.Obj? && WellFormed(v) && WellFormed(w) && Canon(v) == Canon(w)
    ensures Equiv(v, w)
    decreases v, 0
  {
    var ps, qs := v.props, w.props;
    forall key
      ensures Defines(ps, key) <==> Defines(qs, key)
    {
      DefinedSurvives(ps, qs, key);
      DefinedSurvives(qs, ps, key);
    }
    forall i, j | 0 <= i < |ps| && 0 <= j < |qs| && ps[i].key == qs[j].key && !ps[i].value.Undef? && !qs[j].value.Undef?
      ensures Equiv(ps[i].value, qs[j].value)
    {
      var k := MatchingEntry(ps, qs, i);
      SameKeySameIndex(qs, k, j);
      CanonIsExact(ps[i].value, qs[j].value);
    }
  }

  /** An entry of one object shows up, converted, in any object with the same canonical form. */
  lemma MatchingEntry(ps: seq<Keyed<JsValue>>, qs: seq<Keyed<JsValue>>, i: nat) returns (k: nat)
    requires Sort(CanonProps(ps)) == Sort(CanonProps(qs)) && i < |ps| && !ps[i].value.Undef?
    ensures Converts(qs, k, Keyed(ps[i].key, Canon(ps[i].value)))
  {
    var x := Keyed(ps[i].key, Canon(ps[i].value));
    assert Converts(ps, i, x);
    CanonPropsElements(ps, x);
    SortElements(CanonProps(ps), x);
    SortElements(CanonProps(qs), x);
    CanonPropsElements(qs, x);
    k :| Converts(qs, k, x);
  }

  lemma DefinedSurvives(ps: seq<Keyed<JsValue>>, qs: seq<Keyed<JsValue>>, key: string)
    requires Sort(CanonProps(ps)) == Sort(CanonProps(qs))
    ensures Defines(ps, key) ==> Defines(qs, key)
  {
    if i :| 0 <= i < |ps| && ps[i].key == key && !ps[i].value.Undef? {
      var k := MatchingEntry(ps, qs, i);
    }
  }

  // ---------------------------------------------------------------- consequences

  /** A canonical form is well formed and differs from the value only as it may. */
  lemma {:induction false} CanonIsEquiv(v: JsValue)
    requires WellFormed(v)
    ensures WellFormed(Canon(v)) && Equiv(v, Canon(v))
    decreases v
  {
    match v
    case Arr(items) =>
      forall i | 0 <= i < |items|
        ensures WellFormed(CanonItems(items)[i]) && Equiv(items[i], CanonItems(items)[i])
      {
        CanonItemsAt(items, i);
        CanonIsEquiv(items[i]);
      }
    case Obj(props) => CanonObjIsEquiv(v);
    case _ =>
  }

  ghost predicate FromEntry(props: seq<Keyed<JsValue>>, x: Keyed<JsValue>) {
    exists i :: Converts(props, i, x)
  }

  ghost predicate ToEntry(props: seq<Keyed<JsValue>>, i: int, out: seq<Keyed<JsValue>>) {
    exists j :: 0 <= j < |out| && Converts(props, i, out[j])
  }

  /** Entries of a canonical object and defined entries of the object correspond. */
  lemma CanonEntries(props: seq<Keyed<JsValue>>, out: seq<Keyed<JsValue>>)
    requires DistinctKeys(props) && out == Sort(CanonProps(props))
    ensures DistinctKeys(out)
    ensures forall j | 0 <= j < |out| :: FromEntry(props, out[j])
    ensures forall i | 0 <= i < |props| && !props[i].value.Undef? :: ToEntry(props, i, out)
  {
    CanonPropsDistinct(props);
    SortSorts(CanonProps(props));
    SortedDistinct(out);
    hide Canon, Sort, CanonProps, Sorted;
    forall j | 0 <= j < |out|
      ensures FromEntry(props, out[j])
    {
      assert out[j] in out;
      SortElements(CanonProps(props), out[j]);
      CanonPropsElements(props, out[j]);
    }
    forall i | 0 <= i < |props| && !props[i].value.Undef?
      ensures ToEntry(props, i, out)
    {
      var x := Keyed(props[i].key, Canon(props[i].value));
      assert Converts(props, i, x);
      CanonPropsElements(props, x);
      SortElements(CanonProps(props), x);
      var j :| 0 <= j < |out| && out[j] == x;
    }
  }

  lemma {:induction false} CanonObjIsEquiv(v: JsValue)
    requires v.Obj? && WellFormed(v)
    ensures WellFormed(Canon(v)) && Equiv(v, Canon(v))
    decreases v, 0
  {
    var props, out := v.props, Canon(v).props;
    CanonEntries(props, out);
    CanonOfObj(v);
    forall i | 0 <= i < |props| && !props[i].value.Undef?
      ensures WellFormed(Canon(props[i].value)) && Equiv(props[i].value, Canon(props[i].value))
              && !Canon(props[i].value).Undef?
    {
      CanonIsEquiv(props[i].value);
    }
    hide Canon, Sort, CanonProps;
    forall j | 0 <= j < |out|
      ensures WellFormed(out[j].value) && !out[j].value.Undef?
    {
      assert FromEntry(props, out[j]);
      var i :| Converts(props, i, out[j]);
    }
    forall key
      ensures Defines(props, key) <==> Defines(out, key)
    {
      DefinedAgree(props, out, key);
    }
    forall i, j | 0 <= i < |props| && 0 <= j < |out| && props[i].key == out[j].key && !props[i].value.Undef?
        && !out[j].value.Undef?
      ensures Equiv(props[i].value, out[j].value)
    {
      assert FromEntry(props, out[j]);
      var k :| Converts(props, k, out[j]);
      SameKeySameIndex(props, k, i);
    }
  }

  lemma DefinedAgree(props: seq<Keyed<JsValue>>, out: seq<Keyed<JsValue>>, key: string)
    requires forall j | 0 <= j < |out| :: !out[j].value.Undef?
    requires forall j | 0 <= j < |out| :: FromEntry(props, out[j])
    requires forall i | 0 <= i < |props| && !props[i].value.Undef? :: ToEntry(props, i, out)
    ensures Defines(props, key) <==> Defines(out, key)
  {
    hide Canon;
    if j :| 0 <= j < |out| && out[j].key == key && !out[j].value.Undef? {
      assert FromEntry(props, out[j]);
      var i :| Converts(props, i, out[j]);
    }
    if i :| 0 <= i < |props| && props[i].key == key && !props[i].value.Undef? {
      assert ToEntry(props, i, out);
      var j :| 0 <= j < |out| && Converts(props, i, out[j]);
    }
  }

  lemma CanonOfObj(v: JsValue)
    requires v.Obj?
    ensures Canon(v) == Obj(Canon(v).props)
  {
  }

  /** Canonicalisation is idempotent. */
  lemma CanonIsIdempotent(v: JsValue)
    requires WellFormed(v)
    ensures Canon(Canon(v)) == Canon(v)
  {
    CanonIsEquiv(v);
    CanonIsExact(v, Canon(v));
  }

  /** In every object the keys ascend. */
  ghost predicate KeysAscend(v: JsValue)
    decreases v
  {
    match v
    case Arr(items) => forall i :: 0 <= i < |items| ==> KeysAscend(items[i])
    case Obj(props) => Ascends(props) && forall i :: 0 <= i < |props| ==> KeysAscend(props[i].value)
    case _ => true
  }

  /** A canonical form lists the keys of every object in ascending order. */
  lemma {:induction false} CanonAscends(v: JsValue)
    requires WellFormed(v)
    ensures KeysAscend(Canon(v))
    decreases v
  {
    match v
    case Arr(items) =>
      forall i | 0 <= i < |items|
        ensures KeysAscend(CanonItems(items)[i])
      {
        CanonItemsAt(items, i);
        CanonAscends(items[i]);
      }
    case Obj(props) =>
      var out := Sort(CanonProps(props));
      CanonPropsDistinct(props);
      SortSorts(CanonProps(props));
      SortedAscends(out);
      CanonEntries(props, out);
      forall j | 0 <= j < |out|
        ensures KeysAscend(out[j].value)
      {
        assert FromEntry(props, out[j]);
        var i :| Converts(props, i, out[j]);
        CanonAscends(props[i].value);
      }
    case _ =>
  }

  // ---------------------------------------------------------------- the printed payload

  /** What `JSON.stringify` prints: undefined array items become null, undefined entries vanish. */
  function ToJson(v: JsValue): Json.Json
    decreases v
  {
    match v
    case Undef => Json.Null
    case Null => Json.Null
    case Bool(b) => Json.Bool(b)
    case Num(n) => Json.Num(n)
    case Str(s) => Json.Str(s)
    case Arr(items) => Json.Arr(ItemsToJson(items))
    case Obj(props) => Json.Obj(PropsToJson(props))
  }

  function ItemsToJson(items: seq<JsValue>): seq<Json.Json>
    decreases items
  {
    if items == [] then [] else [ToJson(items[0])] + ItemsToJson(items[1..])
  }

  function PropsToJson(props: seq<Keyed<JsValue>>): seq<Json.Field>
    decreases props
  {
    if props == [] then []
    else if props[0].value.Undef? then PropsToJson(props[1..])
    else [Json.Field(props[0].key, ToJson(props[0].value))] + PropsToJson(props[1..])
  }

  /** The canonical payload text of a value. */
  function Payload(v: JsValue): string {
    Json.Stringify(ToJson(Canon(v)))
  }

  /** The value with every undefined array item replaced by null. */
  function Fill(v: JsValue): (r: JsValue)
    ensures r.Undef? <==> v.Undef?
    decreases v
  {
    match v
    case Arr(items) => Arr(FillItems(items))
    case Obj(props) => Obj(FillProps(props))
    case _ => v
  }

  function FillItems(items: seq<JsValue>): (r: seq<JsValue>)
    ensures |r| == |items|
    decreases items
  {
    if items == [] then []
    else [if items[0].Undef? then Null else Fill(items[0])] + FillItems(items[1..])
  }

  function FillProps(props: seq<Keyed<JsValue>>): (r: seq<Keyed<JsValue>>)
    ensures |r| == |props| && forall i :: 0 <= i < |r| ==> r[i].key == props[i].key
    decreases props
  {
    if props == [] then [] else [Keyed(props[0].key, Fill(props[0].value))] + FillProps(props[1..])
  }

  /** Filling does not change what is printed. */
  lemma {:induction false} FillPrintsSame(v: JsValue)
    ensures ToJson(Fill(v)) == ToJson(v)
    decreases v
  {
    match v
    case Arr(items) => FillItemsPrintsSame(items);
    case Obj(props) => FillPropsPrintsSame(props);
    case _ =>
  }

  lemma {:induction false} FillItemsPrintsSame(items: seq<JsValue>)
    ensures ItemsToJson(FillItems(items)) == ItemsToJson(items)
    decreases items
  {
    if items != [] {
      FillPrintsSame(items[0]);
      FillItemsPrintsSame(items[1..]);
    }
  }

  lemma {:induction false} FillPropsPrintsSame(props: seq<Keyed<JsValue>>)
    ensures PropsToJson(FillProps(props)) == PropsToJson(props)
    decreases props
  {
    if props != [] {
      FillPrintsSame(props[0].value);
      FillPropsPrintsSame(props[1..]);
    }
  }

  /** Filling commutes with canonicalisation. */
  lemma {:induction false} FillCanon(v: JsValue)
    ensures Canon(Fill(v)) == Fill(Canon(v))
    decreases v
  {
    match v
    case Arr(items) => FillCanonItems(items);
    case Obj(props) =>
      FillCanonProps(props);
      FillSort(CanonProps(props));
    case _ =>
  }

  lemma {:induction false} FillCanonItems(items: seq<JsValue>)
    ensures CanonItems(FillItems(items)) == FillItems(CanonItems(items))
    decreases items
  {
    if items != [] {
      FillCanon(items[0]);
      FillCanonItems(items[1..]);
    }
  }

  lemma {:induction false} FillCanonProps(props: seq<Keyed<JsValue>>)
    ensures CanonProps(FillProps(props)) == FillProps(CanonProps(props))
    decreases props
  {
    if props != [] {
      FillCanon(props[0].value);
      FillCanonProps(props[1..]);
      assert FillProps(props)[1..] == FillProps(props[1..]);
    }
  }

  lemma {:induction false} FillInsert(xs: seq<Keyed<JsValue>>, x: Keyed<JsValue>)
    ensures FillProps(Insert(xs, x)) == Insert(FillProps(xs), Keyed(x.key, Fill(x.value)))
    decreases |xs|
  {
    hide Fill;
    if xs != [] && !Less(x.key, xs[0].key) {
      FillInsert(xs[1..], x);
      assert FillProps(xs)[1..] == FillProps(xs[1..]);
    }
  }

  lemma {:induction false} FillSort(xs: seq<Keyed<JsValue>>)
    ensures FillProps(Sort(xs)) == Sort(FillProps(xs))
    decreases |xs|
  {
    if xs != [] {
      hide *;
      FillSort(xs[..|xs| - 1]);
      FillSortSnoc(xs[..|xs| - 1], xs[|xs| - 1]);
      assert xs == xs[..|xs| - 1] + [xs[|xs| - 1]];
    }
  }

  lemma FillSortSnoc(init: seq<Keyed<JsValue>>, last: Keyed<JsValue>)
    requires FillProps(Sort(init)) == Sort(FillProps(init))
    ensures FillProps(Sort(init + [last])) == Sort(FillProps(init + [last]))
  {
    hide *;
    FillInsert(Sort(init), last);
    FillSnoc(init, last);
    SortSnoc(init, last);
    SortSnoc(FillProps(init), Keyed(last.key, Fill(last.value)));
  }

  lemma {:induction false} FillSnoc(xs: seq<Keyed<JsValue>>, x: Keyed<JsValue>)
    ensures FillProps(xs + [x]) == FillProps(xs) + [Keyed(x.key, Fill(x.value))]
    decreases |xs|
  {
    hide Fill;
    if xs != [] {
      assert (xs + [x])[1..] == xs[1..] + [x];
      FillSnoc(xs[1..], x);
    }
  }

  /** No undefined value anywhere. */
  ghost predicate Defined(v: JsValue)
    decreases v
  {
    match v
    case Undef => false
    case Arr(items) => forall i :: 0 <= i < |items| ==> Defined(items[i])
    case Obj(props) => forall i :: 0 <= i < |props| ==> Defined(props[i].value)
    case _ => true
  }

  /** Defined values are told apart by what they print. */
  lemma {:induction false} ToJsonInjective(v: JsValue, w: JsValue)
    requires Defined(v) && Defined(w) && ToJson(v) == ToJson(w)
    ensures v == w
    decreases v
  {
    match v
    case Arr(items) => ItemsInjective(items, w.items);
    case Obj(props) => PropsInjective(props, w.props);
    case _ =>
  }

  lemma {:induction false} ItemsInjective(xs: seq<JsValue>, ys: seq<JsValue>)
    requires forall i :: 0 <= i < |xs| ==> Defined(xs[i])
    requires forall i :: 0 <= i < |ys| ==> Defined(ys[i])
    requires ItemsToJson(xs) == ItemsToJson(ys)
    ensures xs == ys
    decreases xs
  {
    if xs != [] && ys != [] {
      assert ItemsToJson(xs)[0] == ItemsToJson(ys)[0] && ItemsToJson(xs)[1..] == ItemsToJson(ys)[1..];
      ToJsonInjective(xs[0], ys[0]);
      ItemsInjective(xs[1..], ys[1..]);
      assert xs == [xs[0]] + xs[1..] && ys == [ys[0]] + ys[1..];
    }
  }

  lemma {:induction false} PropsInjective(xs: seq<Keyed<JsValue>>, ys: seq<Keyed<JsValue>>)
    requires forall i :: 0 <= i < |xs| ==> Defined(xs[i].value)
    requires forall i :: 0 <= i < |ys| ==> Defined(ys[i].value)
    requires PropsToJson(xs) == PropsToJson(ys)
    ensures xs == ys
    decreases xs
  {
    assert xs != [] ==> Defined(xs[0].value);
    assert ys != [] ==> Defined(ys[0].value);
    if xs != [] && ys != [] {
      assert PropsToJson(xs)[0] == PropsToJson(ys)[0] && PropsToJson(xs)[1..] == PropsToJson(ys)[1..];
      ToJsonInjective(xs[0].value, ys[0].value);
      PropsInjective(xs[1..], ys[1..]);
      assert xs == [xs[0]] + xs[1..] && ys == [ys[0]] + ys[1..];
    }
  }

  /** A filled canonical form holds no undefined value. */
  lemma {:induction false} FilledCanonDefined(v: JsValue)
    requires !v.Undef?
    ensures Defined(Canon(Fill(v)))
    decreases v
  {
    match v
    case Arr(items) =>
      forall i | 0 <= i < |items|
        ensures Defined(CanonItems(FillItems(items))[i])
      {
        CanonItemsAt(FillItems(items), i);
        FillItemsAt(items, i);
        if !items[i].Undef? {
          FilledCanonDefined(items[i]);
        }
      }
    case Obj(props) =>
      var filled := FillProps(props);
      var out := Sort(CanonProps(filled));
      forall j | 0 <= j < |out|
        ensures Defined(out[j].value)
      {
        assert out[j] in out;
        SortElements(CanonProps(filled), out[j]);
        CanonPropsElements(filled, out[j]);
        var i :| Converts(filled, i, out[j]);
        FillPropsAt(props, i);
        FilledCanonDefined(props[i].value);
      }
    case _ =>
  }

  lemma {:induction false} FillItemsAt(items: seq<JsValue>, i: nat)
    requires i < |items|
    ensures FillItems(items)[i] == if items[i].Undef? then Null else Fill(items[i])
  {
    if i > 0 {
      FillItemsAt(items[1..], i - 1);
    }
  }

  lemma {:induction false} FillPropsAt(props: seq<Keyed<JsValue>>, i: nat)
    requires i < |props|
    ensures FillProps(props)[i] == Keyed(props[i].key, Fill(props[i].value))
  {
    if i > 0 {
      FillPropsAt(props[1..], i - 1);
    }
  }

  lemma {:induction false} FillWellFormed(v: JsValue)
    requires WellFormed(v)
    ensures WellFormed(Fill(v))
    decreases v
  {
    match v
    case Arr(items) =>
      forall i | 0 <= i < |items|
        ensures WellFormed(FillItems(items)[i])
      {
        FillItemsAt(items, i);
        FillWellFormed(items[i]);
      }
    case Obj(props) =>
      forall i | 0 <= i < |props|
        ensures WellFormed(FillProps(props)[i].value)
      {
        FillPropsAt(props, i);
        FillWellFormed(props[i].value);
      }
    case _ =>
  }

  /** Two values have the same payload text exactly when, with undefined array items read as null, they
      differ only in object key order and undefined-valued entries. */
  lemma PayloadIsExact(v: JsValue, w: JsValue)
    requires WellFormed(v) && WellFormed(w) && !v.Undef? && !w.Undef?
    ensures Payload(v) == Payload(w) <==> Equiv(Fill(v), Fill(w))
  {
    FillCanon(v);
    FillCanon(w);
    FillPrintsSame(Canon(v));
    FillPrintsSame(Canon(w));
    Json.ParseStringify(ToJson(Canon(v)));
    Json.ParseStringify(ToJson(Canon(w)));
    FilledCanonDefined(v);
    FilledCanonDefined(w);
    FillWellFormed(v);
    FillWellFormed(w);
    CanonIsExact(Fill(v), Fill(w));
    hide *;
    if Payload(v) == Payload(w) {
      PayloadText(v);
      PayloadText(w);
      ToJsonInjective(Canon(Fill(v)), Canon(Fill(w)));
    }
    if Equiv(Fill(v), Fill(w)) {
      PayloadText(v);
      PayloadText(w);
    }
  }

  lemma PayloadText(v: JsValue)
    ensures Payload(v) == Json.Stringify(ToJson(Canon(v)))
  {
  }

  /** What parsing JSON gives in JavaScript. */
  function FromJson(j: Json.Json): JsValue
    decreases j
  {
    match j
    case Null => Null
    case Bool(b) => Bool(b)
    case Num(n) => Num(n)
    case Str(s) => Str(s)
    case Arr(items) => Arr(ItemsFromJson(items))
    case Obj(fields) => Obj(PropsFromJson(fields))
  }

  function ItemsFromJson(items: seq<Json.Json>): seq<JsValue>
    decreases items
  {
    if items == [] then [] else [FromJson(items[0])] + ItemsFromJson(items[1..])
  }

  function PropsFromJson(fields: seq<Json.Field>): seq<Keyed<JsValue>>
    decreases fields
  {
    if fields == [] then [] else [Keyed(fields[0].key, FromJson(fields[0].value))] + PropsFromJson(fields[1..])
  }

  lemma {:induction false} FromToJson(v: JsValue)
    requires Defined(v)
    ensures FromJson(ToJson(v)) == v
    decreases v
  {
    match v
    case Arr(items) => ItemsFromTo(items);
    case Obj(props) => PropsFromTo(props);
    case _ =>
  }

  lemma {:induction false} ItemsFromTo(items: seq<JsValue>)
    requires forall i :: 0 <= i < |items| ==> Defined(items[i])
    ensures ItemsFromJson(ItemsToJson(items)) == items
    decreases items
  {
    if items != [] {
      FromToJson(items[0]);
      ItemsFromTo(items[1..]);
      assert ItemsToJson(items)[1..] == ItemsToJson(items[1..]);
    }
  }

  lemma {:induction false} PropsFromTo(props: seq<Keyed<JsValue>>)
    requires forall i :: 0 <= i < |props| ==> Defined(props[i].value)
    ensures PropsFromJson(PropsToJson(props)) == props
    decreases props
  {
    if props != [] {
      assert Defined(props[0].value);
      FromToJson(props[0].value);
      PropsFromTo(props[1..]);
      assert PropsToJson(props)[1..] == PropsToJson(props[1..]);
    }
  }

  /** Parsing the payload gives the canonical form, its undefined items read as null. */
  lemma PayloadReadsBack(v: JsValue)
    requires !v.Undef?
    ensures Json.Parse(Payload(v)).Done? && FromJson(Json.Parse(Payload(v)).value) == Canon(Fill(v))
  {
    var j := ToJson(Canon(v));
    FillCanon(v);
    FillPrintsSame(Canon(v));
    FilledCanonDefined(v);
    FromToJson(Canon(Fill(v)));
    PayloadText(v);
    hide *;
    Json.ParseStringify(j);
  }

  /** The canonical form keeps undefined and null apart inside arrays; the payload text does not. */
  lemma HolesPrintAsNull()
    ensures Canon(Arr([Undef])) != Canon(Arr([Null]))
    ensures Payload(Arr([Undef])) == Payload(Arr([Null]))
  {
    assert CanonItems([Undef]) == [Undef] && CanonItems([Null]) == [Null];
    assert ItemsToJson([Undef]) == [Json.Null] && ItemsToJson([Null]) == [Json.Null];
  }

  // ---------------------------------------------------------------- frames

  /** The digest field itself is never part of the payload. */
  datatype Frame =
    | SnapshotFrame(isDelta: bool, ownerId: string, revision: int, items: JsValue, versions: JsValue, bindings: JsValue,
                    tombstones: JsValue, authorizationKeys: JsValue, digest: string)
    | TombstoneFrame(ownerId: string, revision: int, tombstone: JsValue, digest: string)
    | AuthorityFrame(ownerId: string, serverId: string, revision: int, records: JsValue, authorizationKeys: JsValue,
                     digest: string)

  function FrameType(f: Frame): string {
    match f
    case SnapshotFrame(isDelta, _, _, _, _, _, _, _, _) => if isDelta then "capability.sync.delta"
        else "capability.sync.snapshot"
    case TombstoneFrame(_, _, _, _) => "capability.sync.tombstone"
    case AuthorityFrame(_, _, _, _, _, _) => "capability.sync.authority"
  }

  function FrameValue(f: Frame): JsValue {
    match f
    case TombstoneFrame(owner, revision, tombstone, _) =>
      Obj([Keyed("type", Str(FrameType(f))), Keyed("ownerId", Str(owner)), Keyed("revision", Num(revision)),
          Keyed("tombstone", tombstone)])
    case AuthorityFrame(owner, server, revision, records, keys, _) =>
      Obj([Keyed("type", Str(FrameType(f))), Keyed("ownerId", Str(owner)), Keyed("serverId", Str(server)),
           Keyed("revision", Num(revision)), Keyed("records", records), Keyed("authorizationKeys", keys)])
    case SnapshotFrame(_, owner, revision, items, versions, bindings, tombstones, keys, _) =>
      Obj([Keyed("type", Str(FrameType(f))), Keyed("ownerId", Str(owner)), Keyed("revision", Num(revision)),
          Keyed("items", items),
           Keyed("versions", versions), Keyed("bindings", bindings), Keyed("tombstones", tombstones),
               Keyed("authorizationKeys", keys)])
  }

  /** `canonicalCapabilitySyncDigestPayload`. */
  function DigestPayload(f: Frame): string {
    Payload(FrameValue(f))
  }

  /** The parts of a frame hold no key twice. */
  ghost predicate FrameWellFormed(f: Frame) {
    match f
    case TombstoneFrame(_, _, tombstone, _) => WellFormed(tombstone)
    case AuthorityFrame(_, _, _, records, keys, _) => WellFormed(records) && WellFormed(keys)
    case SnapshotFrame(_, _, _, items, versions, bindings, tombstones, keys, _) =>
      WellFormed(items) && WellFormed(versions) && WellFormed(bindings) && WellFormed(tombstones) && WellFormed(keys)
  }

  lemma FrameValueWellFormed(f: Frame)
    requires FrameWellFormed(f)
    ensures WellFormed(FrameValue(f))
  {
    assert "revision"[0] == 'r' && "versions"[0] == 'v' && "bindings"[0] == 'b' && "records"[0] == 'r'
           && "ownerId"[0] == 'o';
    hide FrameType;
  }

  /** The digest preimage of two frames is the same exactly when their covered parts differ only in object
      key order and undefined entries (undefined array items read as null); the digest field is not covered. */
  lemma DigestPayloadIsExact(f: Frame, g: Frame)
    requires FrameWellFormed(f) && FrameWellFormed(g)
    ensures DigestPayload(f) == DigestPayload(g) <==> Equiv(Fill(FrameValue(f)), Fill(FrameValue(g)))
  {
    FrameValueWellFormed(f);
    FrameValueWellFormed(g);
    hide FrameType, FrameWellFormed;
    PayloadIsExact(FrameValue(f), FrameValue(g));
  }

  /** The frames are of one type and agree on every covered field, values up to key order and undefined entries. */
  ghost predicate SameContent(f: Frame, g: Frame) {
    match (f, g)
    case (SnapshotFrame(_, _, _, _, _, _, _, _, _), SnapshotFrame(_, _, _, _, _, _, _, _, _)) =>
      && f.isDelta == g.isDelta && f.ownerId == g.ownerId && f.revision == g.revision
      && Equiv(Fill(f.items), Fill(g.items)) && Equiv(Fill(f.versions), Fill(g.versions))
      && Equiv(Fill(f.bindings), Fill(g.bindings)) && Equiv(Fill(f.tombstones), Fill(g.tombstones))
      && Equiv(Fill(f.authorizationKeys), Fill(g.authorizationKeys))
    case (TombstoneFrame(_, _, _, _), TombstoneFrame(_, _, _, _)) =>
      f.ownerId == g.ownerId && f.revision == g.revision && Equiv(Fill(f.tombstone), Fill(g.tombstone))
    case (AuthorityFrame(_, _, _, _, _, _), AuthorityFrame(_, _, _, _, _, _)) =>
      && f.ownerId == g.ownerId && f.serverId == g.serverId && f.revision == g.revision
      && Equiv(Fill(f.records), Fill(g.records)) && Equiv(Fill(f.authorizationKeys), Fill(g.authorizationKeys))
    case _ => false
  }

  /** Objects whose entries stand under the same keys in the same places are equivalent entry by entry. */
  lemma EquivAligned(ps: seq<Keyed<JsValue>>, qs: seq<Keyed<JsValue>>)
    requires |ps| == |qs| && DistinctKeys(ps) && forall i :: 0 <= i < |ps| ==> ps[i].key == qs[i].key
    ensures Equiv(Obj(ps), Obj(qs)) <==> forall i :: 0 <= i < |ps| ==> Equiv(ps[i].value, qs[i].value)
  {
    forall i | 0 <= i < |ps|
      ensures Defines(ps, ps[i].key) <==> !ps[i].value.Undef?
      ensures Defines(qs, ps[i].key) <==> !qs[i].value.Undef?
    {
    }
    if Equiv(Obj(ps), Obj(qs)) {
      forall i | 0 <= i < |ps|
        ensures Equiv(ps[i].value, qs[i].value)
      {
        assert Defines(ps, ps[i].key) <==> Defines(qs, ps[i].key);
      }
    }
    if forall i :: 0 <= i < |ps| ==> Equiv(ps[i].value, qs[i].value) {
      forall key
        ensures Defines(ps, key) <==> Defines(qs, key)
      {
        if i :| 0 <= i < |ps| && ps[i].key == key && !ps[i].value.Undef? {
          assert Equiv(ps[i].value, qs[i].value);
        }
        if i :| 0 <= i < |qs| && qs[i].key == key && !qs[i].value.Undef? {
          assert Equiv(ps[i].value, qs[i].value);
        }
      }
    }
  }

  lemma SameTypeSameKind(f: Frame, g: Frame)
    requires FrameType(f) == FrameType(g)
    ensures f.SnapshotFrame? <==> g.SnapshotFrame?
    ensures f.TombstoneFrame? <==> g.TombstoneFrame?
    ensures f.SnapshotFrame? ==> f.isDelta == g.isDelta
  {
    assert FrameType(f)[16] == FrameType(g)[16];
  }

  lemma DifferentTypes(f: Frame, g: Frame)
    requires FrameType(f) != FrameType(g)
    ensures !Equiv(Fill(FrameValue(f)), Fill(FrameValue(g))) && !SameContent(f, g)
  {
    var ps, qs := FrameValue(f).props, FrameValue(g).props;
    FilledFields(ps);
    FilledFields(qs);
    FilledValue(f);
    FilledValue(g);
    var x, y := FillProps(ps)[0], FillProps(qs)[0];
    assert x == Keyed("type", Str(FrameType(f))) && y == Keyed("type", Str(FrameType(g)));
    hide FrameType, FrameValue, FillProps;
    EntriesDiffer(FillProps(ps), FillProps(qs));
    SameContentSameType(f, g);
  }

  lemma SameShape(f: Frame, g: Frame)
    requires (f.SnapshotFrame? <==> g.SnapshotFrame?) && (f.TombstoneFrame? <==> g.TombstoneFrame?)
    ensures var ps, qs := FrameValue(f).props, FrameValue(g).props;
      && |ps| == |qs| == (if f.SnapshotFrame? then 8 else if f.TombstoneFrame? then 4 else 6)
      && forall i :: 0 <= i < |ps| ==> ps[i].key == qs[i].key
  {
    hide FrameType;
  }

  lemma SameContentSameType(f: Frame, g: Frame)
    ensures SameContent(f, g) ==> FrameType(f) == FrameType(g)
  {
    hide Equiv, Fill;
  }

  lemma EntriesDiffer(ps: seq<Keyed<JsValue>>, qs: seq<Keyed<JsValue>>)
    requires ps != [] && qs != [] && ps[0].key == qs[0].key
    requires ps[0].value.Str? && qs[0].value.Str? && ps[0].value != qs[0].value
    ensures !Equiv(Obj(ps), Obj(qs))
  {
  }

  lemma FilledFields(ps: seq<Keyed<JsValue>>)
    ensures |FillProps(ps)| == |ps|
    ensures forall i :: 0 <= i < |ps| ==> FillProps(ps)[i] == Keyed(ps[i].key, Fill(ps[i].value))
  {
    hide Fill;
    forall i | 0 <= i < |ps|
      ensures FillProps(ps)[i] == Keyed(ps[i].key, Fill(ps[i].value))
    {
      FillPropsAt(ps, i);
    }
  }

  lemma FilledValue(f: Frame)
    ensures Fill(FrameValue(f)) == Obj(FillProps(FrameValue(f).props))
  {
    hide FrameType, FillProps;
  }

  /** What a digest covers, field by field: two frames have one preimage exactly when they are of one type and agree on
      owner, server, revision and, up to key order and undefined entries, on each of the values they carry. Frames of
      different types never share a preimage, and the digest field itself is not covered. */
  lemma DigestCoversExactly(f: Frame, g: Frame)
    requires FrameWellFormed(f) && FrameWellFormed(g)
    ensures DigestPayload(f) == DigestPayload(g) <==> SameContent(f, g)
  {
    DigestPayloadIsExact(f, g);
    hide DigestPayload, FrameWellFormed;
    if FrameType(f) != FrameType(g) {
      DifferentTypes(f, g);
    } else {
      SameTypeSameKind(f, g);
      FrameValueWellFormed(f);
      SameFields(f, g);
    }
  }

  /** Texts and numbers are equivalent when they are equal. */
  lemma PlainFields(f: Frame, g: Frame)
    ensures Equiv(Fill(Str(FrameType(f))), Fill(Str(FrameType(g)))) <==> FrameType(f) == FrameType(g)
    ensures Equiv(Fill(Str(f.ownerId)), Fill(Str(g.ownerId))) <==> f.ownerId == g.ownerId
    ensures Equiv(Fill(Num(f.revision)), Fill(Num(g.revision))) <==> f.revision == g.revision
    ensures f.AuthorityFrame? && g.AuthorityFrame? ==>
              (Equiv(Fill(Str(f.serverId)), Fill(Str(g.serverId))) <==> f.serverId == g.serverId)
  {
    hide FrameType;
  }

  lemma SnapshotFields(f: Frame, g: Frame, fs: seq<Keyed<JsValue>>, gs: seq<Keyed<JsValue>>)
    requires f.SnapshotFrame? && g.SnapshotFrame? && FrameType(f) == FrameType(g) && |fs| == |gs| == 8
    requires forall i :: 0 <= i < 8 ==> fs[i].value == Fill(FrameValue(f).props[i].value)
    requires forall i :: 0 <= i < 8 ==> gs[i].value == Fill(FrameValue(g).props[i].value)
    requires f.isDelta == g.isDelta
    ensures (forall i :: 0 <= i < 8 ==> Equiv(fs[i].value, gs[i].value)) <==> SameContent(f, g)
  {
    PlainFields(f, g);
    hide FrameType, Equiv, Fill;
    assert (forall i :: 0 <= i < 8 ==> Equiv(fs[i].value, gs[i].value)) <==>
      && Equiv(fs[0].value, gs[0].value) && Equiv(fs[1].value, gs[1].value)
      && Equiv(fs[2].value, gs[2].value) && Equiv(fs[3].value, gs[3].value)
      && Equiv(fs[4].value, gs[4].value) && Equiv(fs[5].value, gs[5].value)
      && Equiv(fs[6].value, gs[6].value) && Equiv(fs[7].value, gs[7].value);
  }

  lemma TombstoneFields(f: Frame, g: Frame, fs: seq<Keyed<JsValue>>, gs: seq<Keyed<JsValue>>)
    requires f.TombstoneFrame? && g.TombstoneFrame? && FrameType(f) == FrameType(g) && |fs| == |gs| == 4
    requires forall i :: 0 <= i < 4 ==> fs[i].value == Fill(FrameValue(f).props[i].value)
    requires forall i :: 0 <= i < 4 ==> gs[i].value == Fill(FrameValue(g).props[i].value)
    ensures (forall i :: 0 <= i < 4 ==> Equiv(fs[i].value, gs[i].value)) <==> SameContent(f, g)
  {
    PlainFields(f, g);
    hide FrameType, Equiv, Fill;
    assert (forall i :: 0 <= i < 4 ==> Equiv(fs[i].value, gs[i].value)) <==>
      && Equiv(fs[0].value, gs[0].value) && Equiv(fs[1].value, gs[1].value)
      && Equiv(fs[2].value, gs[2].value) && Equiv(fs[3].value, gs[3].value);
  }

  lemma AuthorityFields(f: Frame, g: Frame, fs: seq<Keyed<JsValue>>, gs: seq<Keyed<JsValue>>)
    requires f.AuthorityFrame? && g.AuthorityFrame? && FrameType(f) == FrameType(g) && |fs| == |gs| == 6
    requires forall i :: 0 <= i < 6 ==> fs[i].value == Fill(FrameValue(f).props[i].value)
    requires forall i :: 0 <= i < 6 ==> gs[i].value == Fill(FrameValue(g).props[i].value)
    ensures (forall i :: 0 <= i < 6 ==> Equiv(fs[i].value, gs[i].value)) <==> SameContent(f, g)
  {
    PlainFields(f, g);
    hide FrameType, Equiv, Fill;
    assert (forall i :: 0 <= i < 6 ==> Equiv(fs[i].value, gs[i].value)) <==>
      && Equiv(fs[0].value, gs[0].value) && Equiv(fs[1].value, gs[1].value)
      && Equiv(fs[2].value, gs[2].value) && Equiv(fs[3].value, gs[3].value)
      && Equiv(fs[4].value, gs[4].value) && Equiv(fs[5].value, gs[5].value);
  }

  lemma SameFields(f: Frame, g: Frame)
    requires FrameType(f) == FrameType(g) && DistinctKeys(FrameValue(f).props)
    requires (f.SnapshotFrame? <==> g.SnapshotFrame?) && (f.TombstoneFrame? <==> g.TombstoneFrame?)
    requires f.SnapshotFrame? ==> f.isDelta == g.isDelta
    ensures Equiv(Fill(FrameValue(f)), Fill(FrameValue(g))) <==> SameContent(f, g)
  {
    var ps, qs := FrameValue(f).props, FrameValue(g).props;
    var fs, gs := FillProps(ps), FillProps(qs);
    hide FrameType;
    SameShape(f, g);
    hide Equiv, Fill, FillProps, FrameValue, SameContent;
    FilledFields(ps);
    FilledFields(qs);
    EquivAligned(fs, gs);
    FilledValue(f);
    FilledValue(g);
    if f.SnapshotFrame? {
      SnapshotFields(f, g, fs, gs);
    } else if f.TombstoneFrame? {
      TombstoneFields(f, g, fs, gs);
    } else {
      AuthorityFields(f, g, fs, gs);
    }
  }

  /** Frames with the same preimage agree on owner, revision and tombstone. */
  lemma SameDigestSameTombstone(f: Frame, g: Frame)
    requires f.TombstoneFrame? && g.TombstoneFrame? && FrameWellFormed(f) && FrameWellFormed(g)
    requires DigestPayload(f) == DigestPayload(g)
    ensures f.ownerId == g.ownerId && f.revision == g.revision
    ensures !f.tombstone.Undef? && !g.tombstone.Undef? ==> Equiv(Fill(f.tombstone), Fill(g.tombstone))
  {
    DigestCoversExactly(f, g);
  }
}
