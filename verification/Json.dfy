/** Compact JSON text: what `JSON.stringify` prints and a recursive-descent reader for it.
    Numbers are integers; the reader takes no white space outside strings. */
module Json {
  import opened Text

  datatype Json =
    | Null
    | Bool(flag: bool)
    | Num(n: int)
    | Str(text: string)
    | Arr(items: seq<Json>)
    | Obj(fields: seq<Field>)

  datatype Field = Field(key: string, value: Json)

  /** A successful read carries the value and the position just after it. */
  datatype Parsed<+T> = Fail | Done(value: T, end: nat)

  // ---------------------------------------------------------------- printing

  function HexDigit(d: nat): char
    requires d < 16
  {
    "0123456789abcdef"[d]
  }

  /** One character of a string literal. */
  function Escape(c: char): (r: string)
    ensures |r| > 0
  {
    if c == '\"' then "\\\""
    else if c == '\\' then "\\\\"
    else if c == '\U{8}' then "\\b"
    else if c == '\U{C}' then "\\f"
    else if c == '\n' then "\\n"
    else if c == '\r' then "\\r"
    else if c == '\t' then "\\t"
    else if c < ' ' then "\\u00" + [HexDigit(c as int / 16), HexDigit(c as int % 16)]
    else [c]
  }

  /** The characters of a string literal with its closing quote. */
  function EscapeAll(s: string): (r: string)
    ensures |r| > 0
  {
    if s == "" then "\"" else Escape(s[0]) + EscapeAll(s[1..])
  }

  function Quote(s: string): string {
    "\"" + EscapeAll(s)
  }

  function Digits(n: nat): (r: string)
    ensures |r| > 0
  {
    if n < 10 then ["0123456789"[n]] else Digits(n / 10) + ["0123456789"[n % 10]]
  }

  function Decimal(n: int): string {
    if n < 0 then "-" + Digits(-n) else Digits(n)
  }

  /** `JSON.stringify`. */
  function Stringify(v: Json): (r: string)
    ensures |r| > 0
    decreases v
  {
    match v
    case Null => "null"
    case Bool(b) => if b then "true" else "false"
    case Num(n) => Decimal(n)
    case Str(s) => Quote(s)
    case Arr(items) => if items == [] then "[]" else "[" + PrintItems(items)
    case Obj(fields) => if fields == [] then "{}" else "{" + PrintFields(fields)
  }

  /** The items of a non-empty array with the closing bracket. */
  function PrintItems(items: seq<Json>): string
    requires items != []
    decreases items
  {
    Stringify(items[0]) + (if |items| == 1 then "]" else "," + PrintItems(items[1..]))
  }

  function PrintFields(fields: seq<Field>): string
    requires fields != []
    decreases fields
  {
    Quote(fields[0].key) + (":" + (Stringify(fields[0].value)
        + (if |fields| == 1 then "}" else "," + PrintFields(fields[1..]))))
  }

  // ---------------------------------------------------------------- reading

  predicate IsDigit(c: char) {
    '0' <= c <= '9'
  }

  function HexValue(c: char): (r: int)
    ensures -1 <= r < 16
  {
    if '0' <= c <= '9' then c as int - '0' as int
    else if 'a' <= c <= 'f' then c as int - 'a' as int + 10
    else if 'A' <= c <= 'F' then c as int - 'A' as int + 10
    else -1
  }

  predicate IsScalar(n: int) {
    0 <= n < 0xD800 || 0xE000 <= n < 0x11_0000
  }

  /** The escape sequence at `i`, where a backslash stands. */
  function ReadEscape(s: string, i: nat): (r: Parsed<char>)
    requires i < |s|
    ensures r.Done? ==> i + 2 <= r.end <= |s|
  {
    if i + 1 >= |s| then Fail
    else
      var c := s[i + 1];
      if c == '\"' || c == '\\' || c == '/' then Done(c, i + 2)
      else if c == 'b' then Done('\U{8}', i + 2)
      else if c == 'f' then Done('\U{C}', i + 2)
      else if c == 'n' then Done('\n', i + 2)
      else if c == 'r' then Done('\r', i + 2)
      else if c == 't' then Done('\t', i + 2)
      else if c == 'u' && i + 6 <= |s| then
        var h := HexValue(s[i + 2]);
        var k := HexValue(s[i + 3]);
        var l := HexValue(s[i + 4]);
        var m := HexValue(s[i + 5]);
        var n := ((h * 16 + k) * 16 + l) * 16 + m;
        if h == -1 || k == -1 || l == -1 || m == -1 || !IsScalar(n) then Fail else Done(n as char, i + 6)
      else Fail
  }

  /** The rest of a string literal whose opening quote ends at `i`. */
  function ReadString(s: string, i: nat): (r: Parsed<string>)
    requires i <= |s|
    ensures r.Done? ==> i < r.end <= |s| && s[r.end - 1] == '\"'
    decreases |s| - i
  {
    if i == |s| || s[i] < ' ' then Fail
    else if s[i] == '\"' then Done("", i + 1)
    else if s[i] == '\\' then
      var e := ReadEscape(s, i);
      if e.Fail? then Fail
      else
        var rest := ReadString(s, e.end);
        if rest.Fail? then Fail else Done([e.value] + rest.value, rest.end)
    else
      var rest := ReadString(s, i + 1);
      if rest.Fail? then Fail else Done([s[i]] + rest.value, rest.end)
  }

  /** End of the run of digits that starts at `i`. */
  function DigitsEnd(s: string, i: nat): (r: nat)
    requires i <= |s|
    ensures i <= r <= |s|
    ensures forall k :: i <= k < r ==> IsDigit(s[k])
    ensures r < |s| ==> !IsDigit(s[r])
    decreases |s| - i
  {
    if i < |s| && IsDigit(s[i]) then DigitsEnd(s, i + 1) else i
  }

  function DigitsValue(s: string, i: nat, j: nat): (r: int)
    ensures 0 <= r
    requires i <= j <= |s|
    requires forall k :: i <= k < j ==> IsDigit(s[k])
  {
    if i == j then 0 else assert IsDigit(s[j - 1]); DigitsValue(s, i, j - 1) * 10 + (s[j - 1] as int - '0' as int)
  }

  function ReadNumber(s: string, i: nat): (r: Parsed<int>)
    requires i < |s|
    ensures r.Done? ==> i < r.end <= |s|
    ensures r.Done? ==> forall k :: i < k < r.end ==> IsDigit(s[k])
  {
    var k := if s[i] == '-' then i + 1 else i;
    if k >= |s| || !IsDigit(s[k]) then Fail
    else
      var end := if s[k] == '0' then k + 1 else DigitsEnd(s, k);
      var magnitude := DigitsValue(s, k, end);
      Done(if s[i] == '-' then -magnitude else magnitude, end)
  }

  function ReadLiteral(s: string, i: nat, word: string, v: Json): (r: Parsed<Json>)
    requires i <= |s|
    ensures r.Done? ==> r.end == i + |word| <= |s| && r.value == v && s[i..r.end] == word
  {
    if i + |word| <= |s| && s[i..i + |word|] == word then Done(v, i + |word|) else Fail
  }

  /** The value that starts at `i`. */
  function ReadValue(s: string, i: nat): (r: Parsed<Json>)
    requires i <= |s|
    ensures r.Done? ==> i < r.end <= |s|
    decreases |s| - i, 0
  {
    if i == |s| then Fail
    else if s[i] == '\"' then
      var t := ReadString(s, i + 1);
      if t.Fail? then Fail else Done(Str(t.value), t.end)
    else if s[i] == '{' then
      if i + 1 < |s| && s[i + 1] == '}' then Done(Obj([]), i + 2)
      else
        var fs := ReadFields(s, i + 1);
        if fs.Fail? then Fail else Done(Obj(fs.value), fs.end)
    else if s[i] == '[' then
      if i + 1 < |s| && s[i + 1] == ']' then Done(Arr([]), i + 2)
      else
        var xs := ReadItems(s, i + 1);
        if xs.Fail? then Fail else Done(Arr(xs.value), xs.end)
    else if s[i] == 'n' then ReadLiteral(s, i, "null", Null)
    else if s[i] == 't' then ReadLiteral(s, i, "true", Bool(true))
    else if s[i] == 'f' then ReadLiteral(s, i, "false", Bool(false))
    else
      var n := ReadNumber(s, i);
      if n.Fail? then Fail else Done(Num(n.value), n.end)
  }

  function ReadItems(s: string, i: nat): (r: Parsed<seq<Json>>)
    requires i <= |s|
    ensures r.Done? ==> i < r.end <= |s|
    decreases |s| - i, 1
  {
    var v := ReadValue(s, i);
    if v.Fail? || v.end == |s| then Fail
    else if s[v.end] == ']' then Done([v.value], v.end + 1)
    else if s[v.end] == ',' then
      var rest := ReadItems(s, v.end + 1);
      if rest.Fail? then Fail else Done([v.value] + rest.value, rest.end)
    else Fail
  }

  function ReadFields(s: string, i: nat): (r: Parsed<seq<Field>>)
    requires i <= |s|
    ensures r.Done? ==> i < r.end <= |s|
    decreases |s| - i, 1
  {
    if i == |s| || s[i] != '\"' then Fail
    else
      var k := ReadString(s, i + 1);
      if k.Fail? || k.end == |s| || s[k.end] != ':' then Fail
      else
        var v := ReadValue(s, k.end + 1);
        if v.Fail? || v.end == |s| then Fail
        else if s[v.end] == '}' then Done([Field(k.value, v.value)], v.end + 1)
        else if s[v.end] == ',' then
          var rest := ReadFields(s, v.end + 1);
          if rest.Fail? then Fail else Done([Field(k.value, v.value)] + rest.value, rest.end)
        else Fail
  }

  /** `JSON.parse`: the whole text is one value. */
  function Parse(s: string): (r: Parsed<Json>)
    ensures r.Done? ==> r.end == |s|
  {
    var r := ReadValue(s, 0);
    if r.Done? && r.end == |s| then r else Fail
  }

  /** `value.key` on a parsed object: the last field of that name. */
  function Lookup(fields: seq<Field>, key: string): (r: seq<Json>)
    ensures |r| <= 1
  {
    if fields == [] then []
    else if fields[|fields| - 1].key == key then [fields[|fields| - 1].value]
    else Lookup(fields[..|fields| - 1], key)
  }

  // ---------------------------------------------------------------- reading what was printed

  lemma OccursChar(s: string, a: string, i: nat)
    requires |a| > 0 && OccursAt(s, a, i)
    ensures s[i] == a[0]
  {
    assert s[i..i + |a|][0] == a[0];
  }

  /** The form of an escape sequence: itself, a backslash and a letter, or a backslash and four digits. */
  lemma EscapeForm(c: char)
    ensures |Escape(c)| == 1 ==> Escape(c) == [c] && c >= ' ' && c != '\"' && c != '\\'
    ensures |Escape(c)| != 1 ==> |Escape(c)| == 2 || |Escape(c)| == 6
    ensures |Escape(c)| == 2 ==> Escape(c)[0] == '\\' && ReadEscape(Escape(c), 0) == Done(c, 2)
    ensures |Escape(c)| == 6 ==> c < ' ' && Escape(c) == "\\u00" + [HexDigit(c as int / 16), HexDigit(c as int % 16)]
  {
  }

  lemma ReadEscaped(s: string, c: char, i: nat)
    requires OccursAt(s, Escape(c), i)
    ensures s[i] >= ' ' && s[i] != '\"'
    ensures |Escape(c)| == 1 ==> s[i] == c && c != '\\'
    ensures |Escape(c)| != 1 ==> s[i] == '\\' && ReadEscape(s, i) == Done(c, i + |Escape(c)|)
  {
    var e := Escape(c);
    EscapeForm(c);
    hide Escape, HexValue, HexDigit, IsScalar;
    assert forall k :: 0 <= k < |e| ==> s[i + k] == s[i..i + |e|][k] == e[k];
    assert s[i] == e[0];
    if |e| == 2 {
      assert s[i + 1] == e[1];
    } else if |e| == 6 {
      var h, l := HexDigit(c as int / 16), HexDigit(c as int % 16);
      assert e == ['\\', 'u', '0', '0', h, l];
      assert s[i + 1] == 'u' && s[i + 2] == '0' && s[i + 3] == '0' && s[i + 4] == h && s[i + 5] == l;
      HexRoundTrip(0);
      HexRoundTrip(c as int / 16);
      HexRoundTrip(c as int % 16);
      LowIsScalar(c);
    }
  }

  lemma LowIsScalar(c: char)
    requires c < ' '
    ensures HexDigit(0) == '0' && IsScalar(c as int)
  {
  }

  lemma HexRoundTrip(d: nat)
    requires d < 16
    ensures HexValue(HexDigit(d)) == d
  {
  }

  /** One unfolding of `ReadString`. */
  lemma ReadStringStep(s: string, c: char, i: nat)
    requires OccursAt(s, Escape(c), i) && ReadString(s, i + |Escape(c)|).Done?
    ensures ReadString(s, i) == Done([c] + ReadString(s, i + |Escape(c)|).value, ReadString(s, i + |Escape(c)|).end)
  {
    ReadEscaped(s, c, i);
    hide Escape, ReadEscape, OccursAt;
  }

  lemma EscapeAllStep(t: string)
    requires t != ""
    ensures EscapeAll(t) == Escape(t[0]) + EscapeAll(t[1..])
  {
    hide Escape;
  }

  lemma ReadClosingQuote(s: string, i: nat)
    requires OccursAt(s, EscapeAll(""), i)
    ensures ReadString(s, i) == Done("", i + |EscapeAll("")|)
  {
    OccursChar(s, "\"", i);
  }

  lemma {:induction false} ReadQuoted(s: string, t: string, i: nat)
    requires OccursAt(s, EscapeAll(t), i)
    ensures ReadString(s, i) == Done(t, i + |EscapeAll(t)|)
    decreases |t|
  {
    hide *;
    if t == "" {
      ReadClosingQuote(s, i);
    } else {
      var next := i + |Escape(t[0])|;
      EscapeAllStep(t);
      OccursSplit(s, Escape(t[0]), EscapeAll(t[1..]), i);
      ReadQuoted(s, t[1..], next);
      ReadStringStep(s, t[0], i);
      assert [t[0]] + t[1..] == t;
    }
  }

  /** A literal shows where it ends. */
  lemma QuotesSplit(a: string, x: string, b: string, y: string)
    requires Quote(a) + x == Quote(b) + y
    ensures a == b && x == y
  {
    var p, q := EscapeAll(a), EscapeAll(b);
    hide EscapeAll, ReadString;
    var s := p + x;
    assert (Quote(a) + x)[1..] == p + x && (Quote(b) + y)[1..] == q + y;
    assert s[0..0 + |p|] == p && s[0..0 + |q|] == q;
    ReadQuoted(s, a, 0);
    ReadQuoted(s, b, 0);
    assert s[|p|..] == x && s[|q|..] == y;
  }

  lemma {:induction false} ReadDigits(s: string, n: nat, i: nat)
    requires OccursAt(s, Digits(n), i)
    ensures forall k :: i <= k < i + |Digits(n)| ==> IsDigit(s[k])
    ensures DigitsValue(s, i, i + |Digits(n)|) == n
    ensures n > 0 ==> s[i] != '0'
    ensures n == 0 ==> Digits(n) == "0"
  {
    if n < 10 {
      OccursChar(s, Digits(n), i);
    } else {
      var last := ["0123456789"[n % 10]];
      OccursSplit(s, Digits(n / 10), last, i);
      OccursChar(s, last, i + |Digits(n / 10)|);
      ReadDigits(s, n / 10, i);
    }
  }

  lemma {:induction false} DigitsEndAt(s: string, i: nat, j: nat)
    requires i <= j <= |s| && forall k :: i <= k < j ==> IsDigit(s[k])
    requires j < |s| ==> !IsDigit(s[j])
    ensures DigitsEnd(s, i) == j
    decreases j - i
  {
    if i < j {
      DigitsEndAt(s, i + 1, j);
    }
  }

  lemma ReadDecimal(s: string, n: int, i: nat)
    requires OccursAt(s, Decimal(n), i)
    requires i + |Decimal(n)| < |s| ==> !IsDigit(s[i + |Decimal(n)|])
    ensures ReadNumber(s, i) == Done(n, i + |Decimal(n)|)
    ensures s[i] == '-' || IsDigit(s[i])
  {
    var k := if n < 0 then i + 1 else i;
    var m := if n < 0 then -n else n;
    if n < 0 {
      OccursSplit(s, "-", Digits(m), i);
      OccursChar(s, "-", i);
    }
    ReadDigits(s, m, k);
    var j := k + |Digits(m)|;
    DigitsEndAt(s, k, j);
    assert IsDigit(s[k]);
  }

  /** A value may be followed by anything, except that a digit may not follow a number. */
  ghost predicate Delimited(s: string, v: Json, end: nat) {
    v.Num? && end < |s| ==> !IsDigit(s[end])
  }

  /** Reading finds exactly the value that was printed. */
  lemma {:induction false} ReadPrinted(s: string, v: Json, i: nat)
    requires OccursAt(s, Stringify(v), i)
    requires Delimited(s, v, i + |Stringify(v)|)
    ensures ReadValue(s, i) == Done(v, i + |Stringify(v)|)
    decreases v, 1
  {
    hide ReadItems, ReadFields, ReadString, ReadNumber, PrintItems, PrintFields, EscapeAll, Decimal;
    match v
    case Arr(items) =>
      if items != [] {
        BracketPieces(s, '[', PrintItems(items), i);
        ReadPrintedItems(s, items, i + 1);
        ItemPieces(s, items, i + 1, i + 1 + |Stringify(items[0])|);
        FirstNotCloser(s, items[0], i + 1);
      } else {
        assert s[i..i + 2] == "[]" && s[i..i + 2][0] == s[i] && s[i..i + 2][1] == s[i + 1];
      }
    case Obj(fields) =>
      if fields != [] {
        BracketPieces(s, '{', PrintFields(fields), i);
        ReadPrintedFields(s, fields, i + 1);
        FieldStart(s, fields, i + 1);
      } else {
        assert s[i..i + 2] == "{}" && s[i..i + 2][0] == s[i] && s[i..i + 2][1] == s[i + 1];
      }
    case _ => ReadPrintedScalar(s, v, i);
  }

  lemma BracketPieces(s: string, open: char, rest: string, i: nat)
    requires OccursAt(s, [open] + rest, i)
    ensures s[i] == open && OccursAt(s, rest, i + 1)
  {
    OccursChar(s, [open] + rest, i);
    OccursSplit(s, [open], rest, i);
  }

  lemma ReadPrintedScalar(s: string, v: Json, i: nat)
    requires !v.Arr? && !v.Obj?
    requires OccursAt(s, Stringify(v), i)
    requires Delimited(s, v, i + |Stringify(v)|)
    ensures ReadValue(s, i) == Done(v, i + |Stringify(v)|)
  {
    OccursChar(s, Stringify(v), i);
    match v
    case Num(n) => ReadDecimal(s, n, i);
    case Str(t) =>
      BracketPieces(s, '\"', EscapeAll(t), i);
      ReadQuoted(s, t, i + 1);
    case _ =>
  }

  lemma FieldStart(s: string, fields: seq<Field>, i: nat)
    requires fields != [] && OccursAt(s, PrintFields(fields), i)
    ensures s[i] == '\"'
  {
    OccursChar(s, PrintFields(fields), i);
  }

  /** No value starts with a closing bracket. */
  lemma FirstNotCloser(s: string, v: Json, i: nat)
    requires OccursAt(s, Stringify(v), i)
    ensures s[i] != ']'
  {
    OccursChar(s, Stringify(v), i);
    if v.Num? {
      if v.n < 0 {
      } else {
        ReadDigits(s, v.n, i);
      }
    }
  }

  /** Where the pieces of a printed item list lie. */
  lemma ItemPieces(s: string, items: seq<Json>, i: nat, mid: nat)
    requires items != [] && OccursAt(s, PrintItems(items), i) && mid == i + |Stringify(items[0])|
    ensures OccursAt(s, Stringify(items[0]), i) && mid < |s| && Delimited(s, items[0], mid)
    ensures |items| == 1 ==> s[mid] == ']' && i + |PrintItems(items)| == mid + 1
    ensures |items| > 1 ==> s[mid] == ',' && OccursAt(s, PrintItems(items[1..]), mid + 1)
    ensures |items| > 1 ==> i + |PrintItems(items)| == mid + 1 + |PrintItems(items[1..])|
  {
    var head := Stringify(items[0]);
    if |items| == 1 {
      OccursSplit(s, head, "]", i);
      OccursChar(s, "]", mid);
    } else {
      var tail := "," + PrintItems(items[1..]);
      OccursSplit(s, head, tail, i);
      BracketPieces(s, ',', PrintItems(items[1..]), mid);
    }
  }

  lemma {:induction false} ReadPrintedItems(s: string, items: seq<Json>, i: nat)
    requires items != [] && OccursAt(s, PrintItems(items), i)
    ensures ReadItems(s, i) == Done(items, i + |PrintItems(items)|)
    decreases items
  {
    hide *;
    var mid := i + |Stringify(items[0])|;
    ItemPieces(s, items, i, mid);
    ReadPrinted(s, items[0], i);
    ReadItemsStep(s, i, items[0], mid);
    if |items| > 1 {
      ReadPrintedItems(s, items[1..], mid + 1);
      assert [items[0]] + items[1..] == items;
    } else {
      assert [items[0]] == items;
    }
  }

  /** One unfolding of `ReadItems`. */
  lemma ReadItemsStep(s: string, i: nat, v: Json, mid: nat)
    requires i <= mid < |s| && ReadValue(s, i) == Done(v, mid)
    ensures s[mid] == ']' ==> ReadItems(s, i) == Done([v], mid + 1)
    ensures s[mid] == ',' && ReadItems(s, mid + 1).Done? ==>
              ReadItems(s, i) == Done([v] + ReadItems(s, mid + 1).value, ReadItems(s, mid + 1).end)
  {
    hide ReadValue, ReadFields;
  }

  lemma FieldOccurrences(s: string, key: string, value: string, tail: string, i: nat)
    requires OccursAt(s, key + (":" + (value + tail)), i)
    ensures OccursAt(s, key, i) && i + |key| < |s| && s[i + |key|] == ':'
    ensures OccursAt(s, value, i + |key| + 1) && OccursAt(s, tail, i + |key| + 1 + |value|)
    ensures i + |key| + 1 + |value| + |tail| <= |s|
    ensures |key + (":" + (value + tail))| == |key| + 1 + |value| + |tail|
  {
    OccursSplit(s, key, ":" + (value + tail), i);
    BracketPieces(s, ':', value + tail, i + |key|);
    OccursSplit(s, value, tail, i + |key| + 1);
  }

  /** Where the pieces of a printed field list lie. */
  lemma FieldPieces(s: string, fields: seq<Field>, i: nat, colon: nat, mid: nat, tail: string)
    requires fields != [] && OccursAt(s, PrintFields(fields), i)
    requires colon == i + 1 + |EscapeAll(fields[0].key)| && mid == colon + 1 + |Stringify(fields[0].value)|
    requires tail == if |fields| == 1 then "}" else "," + PrintFields(fields[1..])
    ensures i < |s| && s[i] == '\"' && OccursAt(s, EscapeAll(fields[0].key), i + 1)
    ensures mid < |s| && s[colon] == ':' && OccursAt(s, Stringify(fields[0].value), colon + 1)
    ensures OccursAt(s, tail, mid) && i + |PrintFields(fields)| == mid + |tail|
  {
    hide *;
    var key, value := Quote(fields[0].key), Stringify(fields[0].value);
    PrintFieldsStep(fields, key, value, tail);
    FieldOccurrences(s, key, value, tail, i);
    BracketPieces(s, '\"', EscapeAll(fields[0].key), i);
    OccursInside(s, tail, mid);
  }

  lemma OccursInside(s: string, a: string, i: nat)
    requires OccursAt(s, a, i)
    ensures i + |a| <= |s|
  {
  }

  /** What follows the first field of a printed field list. */
  lemma FieldTail(s: string, fields: seq<Field>, mid: nat, tail: string)
    requires fields != [] && OccursAt(s, tail, mid)
    requires tail == if |fields| == 1 then "}" else "," + PrintFields(fields[1..])
    ensures mid < |s| && Delimited(s, fields[0].value, mid)
    ensures |fields| == 1 ==> s[mid] == '}' && |tail| == 1
    ensures |fields| > 1 ==> s[mid] == ',' && OccursAt(s, PrintFields(fields[1..]), mid + 1)
    ensures |fields| > 1 ==> |tail| == 1 + |PrintFields(fields[1..])|
  {
    hide *;
    if |fields| == 1 {
      OccursChar(s, "}", mid);
    } else {
      BracketPieces(s, ',', PrintFields(fields[1..]), mid);
    }
    OccursInside(s, tail, mid);
    Undigit(s, fields[0].value, mid);
  }

  lemma Undigit(s: string, v: Json, end: nat)
    ensures end < |s| && (s[end] == ',' || s[end] == '}') ==> Delimited(s, v, end)
  {
  }

  lemma PrintFieldsStep(fields: seq<Field>, key: string, value: string, tail: string)
    requires fields != [] && key == Quote(fields[0].key) && value == Stringify(fields[0].value)
    requires tail == if |fields| == 1 then "}" else "," + PrintFields(fields[1..])
    ensures PrintFields(fields) == key + (":" + (value + tail))
    ensures key == "\"" + EscapeAll(fields[0].key)
  {
    hide Stringify, EscapeAll;
  }

  lemma {:induction false} ReadPrintedFields(s: string, fields: seq<Field>, i: nat)
    requires fields != [] && OccursAt(s, PrintFields(fields), i)
    ensures ReadFields(s, i) == Done(fields, i + |PrintFields(fields)|)
    decreases fields, 1
  {
    hide *;
    var f := fields[0];
    var colon := i + 1 + |EscapeAll(f.key)|;
    var mid := colon + 1 + |Stringify(f.value)|;
    ReadPrintedField(s, fields, i, colon, mid);
    ReadFieldsStep(s, i, f, colon, mid);
    if |fields| > 1 {
      ReadPrintedFields(s, fields[1..], mid + 1);
      assert [f] + fields[1..] == fields;
    } else {
      assert [f] == fields;
    }
  }

  /** The first field of a printed field list is read back, and what follows it is known. */
  lemma {:induction false} ReadPrintedField(s: string, fields: seq<Field>, i: nat, colon: nat, mid: nat)
    requires fields != [] && OccursAt(s, PrintFields(fields), i)
    requires colon == i + 1 + |EscapeAll(fields[0].key)| && mid == colon + 1 + |Stringify(fields[0].value)|
    ensures mid < |s| && s[i] == '\"' && s[colon] == ':'
    ensures ReadString(s, i + 1) == Done(fields[0].key, colon)
    ensures ReadValue(s, colon + 1) == Done(fields[0].value, mid)
    ensures |fields| == 1 ==> s[mid] == '}' && i + |PrintFields(fields)| == mid + 1
    ensures |fields| > 1 ==> s[mid] == ',' && OccursAt(s, PrintFields(fields[1..]), mid + 1)
    ensures |fields| > 1 ==> i + |PrintFields(fields)| == mid + 1 + |PrintFields(fields[1..])|
    decreases fields, 0
  {
    hide *;
    var tail := if |fields| == 1 then "}" else "," + PrintFields(fields[1..]);
    FieldPieces(s, fields, i, colon, mid, tail);
    FieldTail(s, fields, mid, tail);
    ReadQuoted(s, fields[0].key, i + 1);
    ReadPrinted(s, fields[0].value, colon + 1);
  }

  /** One unfolding of `ReadFields`. */
  lemma ReadFieldsStep(s: string, i: nat, f: Field, colon: nat, mid: nat)
    requires i < colon < mid < |s| && s[i] == '\"' && s[colon] == ':'
    requires ReadString(s, i + 1) == Done(f.key, colon) && ReadValue(s, colon + 1) == Done(f.value, mid)
    ensures s[mid] == '}' ==> ReadFields(s, i) == Done([f], mid + 1)
    ensures s[mid] == ',' && ReadFields(s, mid + 1).Done? ==>
              ReadFields(s, i) == Done([f] + ReadFields(s, mid + 1).value, ReadFields(s, mid + 1).end)
  {
    hide ReadValue, ReadString, ReadItems;
  }

  /** `JSON.parse(JSON.stringify(v))` is `v`; hence distinct values print differently. */
  lemma ParseStringify(v: Json)
    ensures Parse(Stringify(v)) == Done(v, |Stringify(v)|)
  {
    assert OccursAt(Stringify(v), Stringify(v), 0);
    ReadPrinted(Stringify(v), v, 0);
  }

  // ---------------------------------------------------------------- cut and glued texts

  lemma {:induction false} ReadStringExtends(s: string, longer: string, i: nat)
    requires s <= longer && i <= |s| && ReadString(s, i).Done?
    ensures ReadString(longer, i) == ReadString(s, i)
    decreases |s| - i
  {
    hide HexValue, IsScalar;
    if s[i] == '\"' {
    } else if s[i] == '\\' {
      ReadStringExtends(s, longer, ReadEscape(s, i).end);
    } else {
      ReadStringExtends(s, longer, i + 1);
    }
  }

  lemma {:induction false} DigitsEndExtends(s: string, longer: string, i: nat)
    requires s <= longer && i <= |s| && DigitsEnd(s, i) < |s|
    ensures DigitsEnd(longer, i) == DigitsEnd(s, i)
    decreases |s| - i
  {
    if IsDigit(s[i]) {
      DigitsEndExtends(s, longer, i + 1);
    }
  }

  lemma {:induction false} DigitsValueExtends(s: string, longer: string, i: nat, j: nat)
    requires s <= longer && i <= j <= |s| && forall k :: i <= k < j ==> IsDigit(s[k])
    ensures (forall k :: i <= k < j ==> IsDigit(longer[k])) && DigitsValue(longer, i, j) == DigitsValue(s, i, j)
  {
    if i < j {
      DigitsValueExtends(s, longer, i, j - 1);
    }
  }

  lemma ReadNumberExtends(s: string, longer: string, i: nat)
    requires s <= longer && i < |s| && ReadNumber(s, i).Done? && ReadNumber(s, i).end < |s|
    ensures ReadNumber(longer, i) == ReadNumber(s, i)
  {
    var k := if s[i] == '-' then i + 1 else i;
    if s[k] != '0' {
      DigitsEndExtends(s, longer, k);
    }
    DigitsValueExtends(s, longer, k, ReadNumber(s, i).end);
  }

  /** More text after a value that was read does not change the value, unless it was a number cut at the end. */
  lemma {:induction false} ReadExtends(s: string, longer: string, i: nat)
    requires s <= longer && i <= |s| && ReadValue(s, i).Done?
    requires ReadValue(s, i).value.Num? ==> ReadValue(s, i).end < |s|
    ensures ReadValue(longer, i) == ReadValue(s, i)
    decreases |s| - i, 0
  {
    hide ReadFields, ReadItems, ReadString, ReadNumber;
    if s[i] == '\"' {
      ReadStringExtends(s, longer, i + 1);
    } else if s[i] == '{' {
      if s[i + 1] != '}' {
        ReadFieldsExtends(s, longer, i + 1);
      }
    } else if s[i] == '[' {
      if s[i + 1] != ']' {
        ReadItemsExtends(s, longer, i + 1);
      }
    } else if s[i] == 'n' || s[i] == 't' || s[i] == 'f' {
      var e := ReadValue(s, i).end;
      assert longer[i..e] == s[i..e];
    } else {
      ReadNumberExtends(s, longer, i);
    }
  }

  lemma {:induction false} ReadItemsExtends(s: string, longer: string, i: nat)
    requires s <= longer && i <= |s| && ReadItems(s, i).Done?
    ensures ReadItems(longer, i) == ReadItems(s, i)
    decreases |s| - i, 1
  {
    hide ReadValue;
    ReadExtends(s, longer, i);
    var v := ReadValue(s, i);
    if s[v.end] == ',' {
      ReadItemsExtends(s, longer, v.end + 1);
    }
  }

  lemma {:induction false} ReadFieldsExtends(s: string, longer: string, i: nat)
    requires s <= longer && i <= |s| && ReadFields(s, i).Done?
    ensures ReadFields(longer, i) == ReadFields(s, i)
    decreases |s| - i, 1
  {
    hide ReadValue, ReadString;
    ReadStringExtends(s, longer, i + 1);
    var k := ReadString(s, i + 1);
    ReadExtends(s, longer, k.end + 1);
    var v := ReadValue(s, k.end + 1);
    if s[v.end] == ',' {
      ReadFieldsExtends(s, longer, v.end + 1);
    }
  }

  /** A printed object cut short is not JSON. */
  lemma CutObjectFails(v: Json, n: nat)
    requires v.Obj? && n < |Stringify(v)|
    ensures Parse(Stringify(v)[..n]).Fail?
  {
    var s := Stringify(v);
    var p := s[..n];
    if Parse(p).Done? {
      assert p[0] == s[0] == '{';
      ReadExtends(p, s, 0);
      ParseStringify(v);
    }
  }

  /** An object opens at `p` with a key whose first character can follow no string. */
  ghost predicate OpensObject(s: string, p: nat) {
    p + 2 < |s| && s[p] == '{' && s[p + 1] == '\"' && s[p + 2] !in ":,]}"
  }

  /** Seen from inside a string literal, such an opening ends the literal. */
  lemma {:induction false} OpeningEndsString(s: string, i: nat, p: nat)
    requires i <= p && OpensObject(s, p) && i <= |s| && ReadString(s, i).Done? && p < ReadString(s, i).end
    ensures ReadString(s, i).end == p + 2
    decreases |s| - i
  {
    if i == p {
      assert ReadString(s, p + 1) == Done("", p + 2);
    } else if s[i] == '\\' {
      OpeningEndsString(s, ReadEscape(s, i).end, p);
    } else {
      OpeningEndsString(s, i + 1, p);
    }
  }

  /** An opening strictly inside a value is the start of a nested value that ends earlier. */
  lemma {:induction false} OpeningIsNested(s: string, i: nat, p: nat)
    requires i < p && OpensObject(s, p) && ReadValue(s, i).Done? && p < ReadValue(s, i).end
    ensures var v := ReadValue(s, i);
            if v.value.Str? then v.end == p + 2 else ReadValue(s, p).Done? && ReadValue(s, p).end < v.end
    decreases |s| - i, 0
  {
    hide ReadFields, ReadItems, ReadString, ReadNumber;
    if s[i] == '\"' {
      OpeningEndsString(s, i + 1, p);
    } else if s[i] == '{' {
      OpeningInFields(s, i + 1, p);
    } else if s[i] == '[' {
      OpeningInItems(s, i + 1, p);
    } else if s[i] == 'n' || s[i] == 't' || s[i] == 'f' {
      assert s[i..ReadValue(s, i).end][p - i] == '{';
      assert false;
    } else {
      assert false;
    }
  }

  lemma {:induction false} OpeningInItems(s: string, i: nat, p: nat)
    requires i <= p && OpensObject(s, p) && ReadItems(s, i).Done? && p < ReadItems(s, i).end
    ensures ReadValue(s, p).Done? && ReadValue(s, p).end < ReadItems(s, i).end
    decreases |s| - i, 1
  {
    hide ReadValue;
    var v := ReadValue(s, i);
    if i < p < v.end {
      OpeningIsNested(s, i, p);
    } else if v.end < p {
      OpeningInItems(s, v.end + 1, p);
    }
  }

  lemma {:induction false} OpeningInFields(s: string, i: nat, p: nat)
    requires i <= p && OpensObject(s, p) && ReadFields(s, i).Done? && p < ReadFields(s, i).end
    ensures ReadValue(s, p).Done? && ReadValue(s, p).end < ReadFields(s, i).end
    decreases |s| - i, 1
  {
    hide ReadValue, ReadString;
    var k := ReadString(s, i + 1);
    var v := ReadValue(s, k.end + 1);
    if i < p < k.end {
      OpeningEndsString(s, i + 1, p);
      assert false;
    } else if k.end + 1 < p < v.end {
      OpeningIsNested(s, k.end + 1, p);
    } else if v.end < p {
      OpeningInFields(s, v.end + 1, p);
    }
  }

  /** Text that starts like an object and ends in a whole printed object is not JSON. */
  lemma GluedObjectFails(t: string, v: Json)
    requires t != "" && t[0] == '{' && v.Obj?
    requires OpensObject(Stringify(v), 0)
    ensures Parse(t + Stringify(v)).Fail?
  {
    var s := t + Stringify(v);
    var p := |t|;
    if Parse(s).Done? {
      assert s[p] == Stringify(v)[0] && s[p + 1] == Stringify(v)[1] && s[p + 2] == Stringify(v)[2];
      assert s[p..p + |Stringify(v)|] == Stringify(v);
      ReadPrinted(s, v, p);
      assert s[0] == '{';
      OpeningIsNested(s, 0, p);
    }
  }

  lemma ReadBehind(t: string, v: Json)
    requires v.Obj?
    ensures ReadValue(t + Stringify(v), |t|) == Done(v, |t| + |Stringify(v)|)
  {
    var whole := Stringify(v);
    var s := t + whole;
    hide Stringify, ReadValue;
    assert s[|t|..|t| + |whole|] == whole;
    ReadPrinted(s, v, |t|);
  }

  /** Behind anything, a printed object cut short is not read as a value with more text behind it. */
  lemma CutObjectRunsOut(t: string, v: Json, n: nat)
    requires v.Obj? && n < |Stringify(v)|
    ensures var s := t + Stringify(v)[..n]; ReadValue(s, |t|).Done? ==> ReadValue(s, |t|).end == |s|
  {
    var whole := Stringify(v);
    var s, longer, p := t + whole[..n], t + whole, |t|;
    hide *;
    if ReadValue(s, p).Done? && ReadValue(s, p).end < |s| {
      assert longer == s + whole[n..];
      ReadExtends(s, longer, p);
      ReadBehind(t, v);
    }
  }

  /** Nor is text an object that starts like one and ends in a printed object cut short. */
  lemma GluedCutFails(t: string, v: Json, n: nat)
    requires t != "" && t[0] == '{' && v.Obj? && OpensObject(Stringify(v), 0) && 0 < n < |Stringify(v)|
    ensures var r := Parse(t + Stringify(v)[..n]); r.Done? ==> !r.value.Obj?
  {
    var whole := Stringify(v);
    var s := t + whole[..n];
    if Parse(s).Done? && Parse(s).value.Obj? {
      hide ReadValue, Stringify;
      ObjectEnds(s);
      assert s[|s| - 1] == whole[n - 1];
      assert n > 2;
      OpeningBehind(t, whole, n);
      OpeningIsNested(s, 0, |t|);
      CutObjectRunsOut(t, v, n);
    }
  }

  lemma OpeningBehind(t: string, whole: string, n: nat)
    requires 2 < n <= |whole| && OpensObject(whole, 0)
    ensures OpensObject(t + whole[..n], |t|)
  {
    var s := t + whole[..n];
    assert s[|t|] == whole[0] && s[|t| + 1] == whole[1] && s[|t| + 2] == whole[2];
  }

  // ---------------------------------------------------------------- one line

  ghost predicate Printable(s: string) {
    forall i :: 0 <= i < |s| ==> s[i] >= ' '
  }

  lemma PrintableConcat(a: string, b: string)
    requires Printable(a) && Printable(b)
    ensures Printable(a + b)
  {
  }

  lemma EscapeIsPrintable(c: char)
    ensures Printable(Escape(c))
  {
  }

  lemma {:induction false} EscapedIsPrintable(s: string)
    ensures Printable(EscapeAll(s))
  {
    if s != "" {
      EscapeAllStep(s);
      EscapedIsPrintable(s[1..]);
      EscapeIsPrintable(s[0]);
      hide *;
      PrintableConcat(Escape(s[0]), EscapeAll(s[1..]));
    }
  }

  lemma {:induction false} DigitsArePrintable(n: nat)
    ensures Printable(Digits(n))
  {
    if n >= 10 {
      DigitsArePrintable(n / 10);
    }
  }

  /** Printed JSON holds no control character, so it fits on one line. */
  lemma {:induction false} PrintedIsPrintable(v: Json)
    ensures Printable(Stringify(v))
    decreases v, 1
  {
    hide PrintItems, PrintFields, EscapeAll, Digits;
    match v
    case Arr(items) =>
      if items != [] {
        ItemsArePrintable(items);
        PrintableConcat("[", PrintItems(items));
      }
    case Obj(fields) =>
      if fields != [] {
        FieldsArePrintable(fields);
        PrintableConcat("{", PrintFields(fields));
      }
    case Num(n) => DigitsArePrintable(if n < 0 then -n else n);
    case Str(t) =>
      EscapedIsPrintable(t);
      PrintableConcat("\"", EscapeAll(t));
    case _ =>
  }

  lemma {:induction false} ItemsArePrintable(items: seq<Json>)
    requires items != []
    ensures Printable(PrintItems(items))
    decreases items, 0
  {
    PrintedIsPrintable(items[0]);
    if |items| == 1 {
      PrintableConcat(Stringify(items[0]), "]");
    } else {
      ItemsArePrintable(items[1..]);
      PrintableConcat(",", PrintItems(items[1..]));
      PrintableConcat(Stringify(items[0]), "," + PrintItems(items[1..]));
    }
  }

  lemma {:induction false} FieldsArePrintable(fields: seq<Field>)
    requires fields != []
    ensures Printable(PrintFields(fields))
    decreases fields, 0
  {
    var key, value := Quote(fields[0].key), Stringify(fields[0].value);
    var tail := if |fields| == 1 then "}" else "," + PrintFields(fields[1..]);
    PrintFieldsStep(fields, key, value, tail);
    assert Printable("\"") && Printable(":") && Printable(",") && Printable("}");
    EscapedIsPrintable(fields[0].key);
    PrintedIsPrintable(fields[0].value);
    if |fields| > 1 {
      FieldsArePrintable(fields[1..]);
    }
    hide *;
    PrintableConcat("\"", EscapeAll(fields[0].key));
    if |fields| > 1 {
      PrintableConcat(",", PrintFields(fields[1..]));
    }
    PrintableConcat(value, tail);
    PrintableConcat(":", value + tail);
    PrintableConcat(key, ":" + (value + tail));
  }

  /** The value of a field whose name does not occur again later. */
  /** The last field under this key has this value. */
  ghost predicate LastIs(fields: seq<Field>, key: string, value: Json) {
    exists i :: 0 <= i < |fields| && fields[i] == Field(key, value) && IsLast(fields, key, i)
  }

  ghost predicate IsLast(fields: seq<Field>, key: string, i: int) {
    forall j :: 0 <= j < |fields| && i < j ==> fields[j].key != key
  }

  /** Looking a key up gives the value of its last field, and nothing exactly when no field has it. */
  lemma LookupIff(fields: seq<Field>, key: string)
    ensures forall value :: Lookup(fields, key) == [value] <==> LastIs(fields, key, value)
    ensures Lookup(fields, key) == [] <==> forall i :: 0 <= i < |fields| ==> fields[i].key != key
  {
    var r := Lookup(fields, key);
    if i :| 0 <= i < |fields| && fields[i].key == key && IsLast(fields, key, i) {
      LookupAt(fields, key, i);
      assert r == [fields[i].value];
    } else {
      LookupNothing(fields, key);
    }
  }

  lemma {:induction false} LookupNothing(fields: seq<Field>, key: string)
    requires forall i :: 0 <= i < |fields| && fields[i].key == key ==> !IsLast(fields, key, i)
    ensures Lookup(fields, key) == [] && forall i :: 0 <= i < |fields| ==> fields[i].key != key
  {
    if fields != [] {
      var n := |fields| - 1;
      assert IsLast(fields, key, n);
      forall i | 0 <= i < n && fields[..n][i].key == key
        ensures !IsLast(fields[..n], key, i)
      {
        var j :| i < j < |fields| && fields[j].key == key;
        assert fields[..n][j] == fields[j];
      }
      LookupNothing(fields[..n], key);
    }
  }

  lemma {:induction false} LookupAt(fields: seq<Field>, key: string, i: nat)
    requires i < |fields| && fields[i].key == key
    requires forall j :: i < j < |fields| ==> fields[j].key != key
    ensures Lookup(fields, key) == [fields[i].value]
  {
    if i < |fields| - 1 {
      LookupAt(fields[..|fields| - 1], key, i);
    }
  }

  /** How a printed object with a named first field begins. */
  lemma PrintedObjectStart(fields: seq<Field>)
    requires fields != [] && fields[0].key != ""
    ensures var s := Stringify(Obj(fields));
            |s| > 2 && s[0] == '{' && s[1] == '\"' && s[2] == Escape(fields[0].key[0])[0]
  {
    var key := fields[0].key;
    var tail := if |fields| == 1 then "}" else "," + PrintFields(fields[1..]);
    PrintFieldsStep(fields, Quote(key), Stringify(fields[0].value), tail);
    EscapeAllStep(key);
    assert Stringify(Obj(fields)) == "{" + PrintFields(fields);
    hide *;
    HeadOfConcat(Escape(key[0]), EscapeAll(key[1..]));
    HeadOfConcat("\"", EscapeAll(key));
    assert ("\"" + EscapeAll(key))[1] == EscapeAll(key)[0];
    var rest := ":" + (Stringify(fields[0].value) + tail);
    assert (Quote(key) + rest)[0] == Quote(key)[0] && (Quote(key) + rest)[1] == Quote(key)[1];
    assert ("{" + PrintFields(fields))[1] == PrintFields(fields)[0]
           && ("{" + PrintFields(fields))[2] == PrintFields(fields)[1];
  }

  lemma HeadOfConcat(a: string, b: string)
    requires |a| > 0
    ensures (a + b)[0] == a[0]
  {
  }

  /** How a printed object ends. */
  lemma {:induction false} PrintedFieldsEnd(fields: seq<Field>)
    requires fields != []
    ensures var s := PrintFields(fields); s != "" && s[|s| - 1] == '}'
  {
    var tail := if |fields| == 1 then "}" else "," + PrintFields(fields[1..]);
    PrintFieldsStep(fields, Quote(fields[0].key), Stringify(fields[0].value), tail);
    if |fields| > 1 {
      PrintedFieldsEnd(fields[1..]);
    }
    hide *;
  }

  /** Text that reads as an object ends with its closing brace. */
  lemma ObjectEnds(s: string)
    requires Parse(s).Done? && Parse(s).value.Obj?
    ensures s != "" && s[|s| - 1] == '}'
  {
    hide ReadFields, ReadItems, ReadString, ReadNumber, ReadLiteral;
    if s[0] == '{' && !(1 < |s| && s[1] == '}') {
      FieldsEnd(s, 1);
    }
  }

  lemma {:induction false} FieldsEnd(s: string, i: nat)
    requires i <= |s| && ReadFields(s, i).Done?
    ensures s[ReadFields(s, i).end - 1] == '}'
    decreases |s| - i
  {
    hide ReadValue, ReadString, ReadItems;
    var v := ReadValue(s, ReadString(s, i + 1).end + 1);
    if s[v.end] == ',' {
      FieldsEnd(s, v.end + 1);
    }
  }
}
