/**
 Canonical JSON, as digests are taken over it (control_plane/audit/chain.py): sorted keys,
 no spaces, ASCII only. Two values are written alike exactly when they are the same JSON.
 */
module CanonicalJson {
  import opened Wrappers
  import opened Ordering
  import opened Operators
  import Strings

  // --- text ---------------------------------------------------------------------------

  function HexDigit(n: nat): char
    requires n < 16
  {
    if n < 10 then ('0' as int + n) as char else ('a' as int + n - 10) as char
  }

  function HexValue(c: char): int {
    if c <= '9' then c as int - '0' as int else c as int - 'a' as int + 10
  }

  function Hex4(n: nat): (r: string)
    requires n < 0x1_0000
    ensures |r| == 4
  {
    [HexDigit(n / 16 / 16 / 16), HexDigit(n / 16 / 16 % 16), HexDigit(n / 16 % 16), HexDigit(n % 16)]
  }

  function Code(s: string): int
    requires |s| == 4
  {
    4096 * HexValue(s[0]) + 256 * HexValue(s[1]) + 16 * HexValue(s[2]) + HexValue(s[3])
  }

  lemma CodeRoundTrip(n: nat)
    requires n < 0x1_0000
    ensures Code(Hex4(n)) == n
  {
    hide HexValue, HexDigit;
    var m := n / 16;
    var k := m / 16;
    HexRoundTrip(k / 16);
    HexRoundTrip(k % 16);
    HexRoundTrip(m % 16);
    HexRoundTrip(n % 16);
    assert n == 16 * m + n % 16 && m == 16 * k + m % 16 && k == 16 * (k / 16) + k % 16;
  }

  lemma HexRoundTrip(n: nat)
    requires n < 16
    ensures HexValue(HexDigit(n)) == n
  {}

  /** The letter of a two-character escape, if the character has one. */
  function ShortEscape(c: char): Option<char> {
    match c as int
    case 34 => Some('"')
    case 92 => Some('\\')
    case 8 => Some('b')
    case 12 => Some('f')
    case 10 => Some('n')
    case 13 => Some('r')
    case 9 => Some('t')
    case _ => None
  }

  function EscapeChar(c: char): string {
    var short := ShortEscape(c);
    if short.Some? then ['\\', short.value]
    else if 32 <= c as int <= 126 then [c]
    else if (c as int) < 0x1_0000 then ['\\', 'u'] + Hex4(c as int)
    else
      var n := c as int - 0x1_0000;
      ['\\', 'u'] + Hex4(0xD800 + n / 1024) + ['\\', 'u'] + Hex4(0xDC00 + n % 1024)
  }

  /** What a short escape stands for. */
  function ShortValue(c: char): int {
    match c
    case 'b' => 8
    case 'f' => 12
    case 'n' => 10
    case 'r' => 13
    case 't' => 9
    case _ => c as int
  }

  /** The first character of an escaped text, and what follows it. */
  function FirstChar(s: string): Option<(int, string)> {
    if s == "" then None
    else if s[0] != '\\' then Some((s[0] as int, s[1..]))
    else if |s| < 2 then None
    else if s[1] != 'u' then Some((ShortValue(s[1]), s[2..]))
    else if |s| < 6 then None
    else
      var n := Code(s[2..6]);
      if !(0xD800 <= n < 0xDC00) then Some((n, s[6..]))
      else if |s| < 12 then None
      else Some((0x1_0000 + (n - 0xD800) * 1024 + (Code(s[8..12]) - 0xDC00), s[12..]))
  }

  lemma FirstCharEscaped(c: char, rest: string)
    ensures EscapeChar(c) != "" && EscapeChar(c)[0] != '"'
    ensures FirstChar(EscapeChar(c) + rest) == Some((c as int, rest))
  {
    hide Hex4, Code;
    var s := EscapeChar(c) + rest;
    if ShortEscape(c).Some? {
      assert s[0] == '\\' && s[1] == ShortEscape(c).value && s[2..] == rest;
    } else if 32 <= c as int <= 126 {
      assert s[0] == c && s[1..] == rest;
    } else if (c as int) < 0x1_0000 {
      CodeRoundTrip(c as int);
      assert s[0] == '\\' && s[1] == 'u' && s[2..6] == Hex4(c as int) && s[6..] == rest;
    } else {
      var n := c as int - 0x1_0000;
      CodeRoundTrip(0xD800 + n / 1024);
      CodeRoundTrip(0xDC00 + n % 1024);
      assert s[0] == '\\' && s[1] == 'u' && s[2..6] == Hex4(0xD800 + n / 1024);
      assert s[8..12] == Hex4(0xDC00 + n % 1024) && s[12..] == rest;
    }
  }

  /** A text escaped, and what follows it. */
  function EscapedThen(s: string, rest: string): string {
    if s == "" then rest else EscapeChar(s[0]) + EscapedThen(s[1..], rest)
  }

  lemma EscapedIsNoQuote(s: string, rest: string)
    requires s != ""
    ensures EscapedThen(s, rest) != "" && EscapedThen(s, rest)[0] != '"'
  {
    hide EscapeChar, FirstChar;
    FirstCharEscaped(s[0], EscapedThen(s[1..], rest));
  }

  lemma {:induction false} TextCut(a: string, b: string, u: string, v: string)
    requires EscapedThen(a, ['"'] + u) == EscapedThen(b, ['"'] + v)
    ensures a == b && u == v
  {
    hide EscapeChar, FirstChar;
    if a == "" && b == "" {
      assert (['"'] + u)[1..] == u && (['"'] + v)[1..] == v;
    } else if a == "" {
      EscapedIsNoQuote(b, ['"'] + v);
    } else if b == "" {
      EscapedIsNoQuote(a, ['"'] + u);
    } else {
      FirstCharEscaped(a[0], EscapedThen(a[1..], ['"'] + u));
      FirstCharEscaped(b[0], EscapedThen(b[1..], ['"'] + v));
      TextCut(a[1..], b[1..], u, v);
      assert a == [a[0]] + a[1..] && b == [b[0]] + b[1..];
    }
  }

  // --- values -------------------------------------------------------------------------------

  function IntText(n: int): string {
    if n < 0 then ['-'] + Strings.Decimal(-n) else Strings.Decimal(n)
  }

  function QuotedThen(s: string, rest: string): string {
    ['"'] + EscapedThen(s, ['"'] + rest)
  }

  /** A value, and what follows it. */
  function WrittenThen(v: Value, rest: string): string
    decreases v
  {
    match v
    case Null => "null" + rest
    case Bool(b) => (if b then "true" else "false") + rest
    case Num(n) => IntText(n) + rest
    case Str(s) => QuotedThen(s, rest)
    case Arr(items) =>
      "[" + (if items == [] then "]" + rest else WrittenThen(items[0], ItemsThen(items[1..], rest)))
    case Obj(entries) =>
      "{" + (if entries == [] then "}" + rest
             else QuotedThen(entries[0].key, ":" + WrittenThen(entries[0].value, EntriesThen(entries[1..], rest))))
  }

  function ItemsThen(items: seq<Value>, rest: string): string
    decreases items
  {
    if items == [] then "]" + rest else "," + WrittenThen(items[0], ItemsThen(items[1..], rest))
  }

  function EntriesThen(entries: seq<Entry>, rest: string): string
    decreases entries
  {
    if entries == [] then "}" + rest
    else "," + QuotedThen(entries[0].key, ":" + WrittenThen(entries[0].value, EntriesThen(entries[1..], rest)))
  }

  /** Nothing that could prolong a number. */
  predicate Stops(rest: string) {
    rest == "" || rest[0] == ',' || rest[0] == ']' || rest[0] == '}'
  }

  /** The constructors, told apart by the first character. */
  function Sort(v: Value): int {
    match v
    case Null => 0
    case Bool(_) => 1
    case Num(_) => 2
    case Str(_) => 3
    case Arr(_) => 4
    case Obj(_) => 5
  }

  function SortAt(c: char): int {
    if c == 'n' then 0
    else if c == 't' || c == 'f' then 1
    else if c == '-' || Strings.IsDigit(c) then 2
    else if c == '"' then 3
    else if c == '[' then 4
    else if c == '{' then 5
    else 6
  }

  lemma SortShows(v: Value, rest: string)
    ensures var s := WrittenThen(v, rest); s != "" && SortAt(s[0]) == Sort(v)
  {
    if v.Num? {
      var s := IntText(v.n);
      assert s[0] in s;
      if v.n >= 0 {
        assert Strings.Decimal(v.n)[0] in Strings.Decimal(v.n);
      }
      assert (s + rest)[0] == s[0];
    }
  }

  lemma DigitFollows(x: string, y: string, u: string, v: string)
    requires x + u == y + v && |x| < |y| && forall c | c in y :: Strings.IsDigit(c)
    ensures u != "" && Strings.IsDigit(u[0])
  {
    var whole := x + u;
    assert whole[|x|] == y[|x|] && y[|x|] in y && whole[|x|] == u[0];
  }

  lemma DigitsCut(x: string, y: string, u: string, v: string)
    requires x + u == y + v && (forall c | c in x :: Strings.IsDigit(c)) && (forall c | c in y :: Strings.IsDigit(c))
    requires Stops(u) && Stops(v)
    ensures x == y && u == v
  {
    var whole := x + u;
    if |x| < |y| {
      DigitFollows(x, y, u, v);
    } else if |y| < |x| {
      DigitFollows(y, x, v, u);
    } else {
      assert whole[..|x|] == x && whole[..|x|] == y && whole[|x|..] == u && whole[|x|..] == v;
    }
  }

  lemma NumberCut(n: int, m: int, u: string, v: string)
    requires IntText(n) + u == IntText(m) + v && Stops(u) && Stops(v)
    ensures n == m && u == v
  {
    hide Strings.Decimal, IntText;
    NumberSign(n, u);
    NumberSign(m, v);
    if n < 0 {
      Behind('-', Strings.Decimal(-n) + u, Strings.Decimal(-m) + v);
      DigitsCut(Strings.Decimal(-n), Strings.Decimal(-m), u, v);
      Strings.DecimalInjective(-n, -m);
    } else {
      DigitsCut(Strings.Decimal(n), Strings.Decimal(m), u, v);
      Strings.DecimalInjective(n, m);
    }
  }

  lemma NumberSign(n: int, u: string)
    ensures IntText(n) + u != "" && ((IntText(n) + u)[0] == '-' <==> n < 0)
    ensures IntText(n) + u == if n < 0 then ['-'] + (Strings.Decimal(-n) + u) else Strings.Decimal(n) + u
  {
    hide Strings.Decimal;
    if n >= 0 {
      var s := Strings.Decimal(n);
      assert s[0] in s && (s + u)[0] == s[0];
    }
  }

  lemma Behind(c: char, u: string, v: string)
    requires [c] + u == [c] + v
    ensures u == v
  {
    assert ([c] + u)[1..] == u && ([c] + v)[1..] == v;
  }

  lemma QuotedCut(a: string, b: string, u: string, v: string)
    requires QuotedThen(a, u) == QuotedThen(b, v)
    ensures a == b && u == v
  {
    Behind('"', EscapedThen(a, ['"'] + u), EscapedThen(b, ['"'] + v));
    TextCut(a, b, u, v);
  }

  lemma WordCut(b: bool, d: bool, u: string, v: string)
    requires (if b then "true" else "false") + u == (if d then "true" else "false") + v
    ensures b == d && u == v
  {
    var x, y := if b then "true" else "false", if d then "true" else "false";
    assert (x + u)[0] == x[0] && (y + v)[0] == y[0];
    assert (x + u)[|x|..] == u && (y + v)[|y|..] == v;
  }

  lemma ItemsStop(items: seq<Value>, rest: string)
    ensures Stops(ItemsThen(items, rest))
    ensures ItemsThen(items, rest)[0] == if items == [] then ']' else ','
  {}

  lemma EntriesStop(entries: seq<Entry>, rest: string)
    ensures Stops(EntriesThen(entries, rest))
    ensures EntriesThen(entries, rest)[0] == if entries == [] then '}' else ','
  {}

  /** A written value can be told from what follows it. */
  lemma {:induction false} ValueCut(a: Value, b: Value, u: string, v: string)
    requires WrittenThen(a, u) == WrittenThen(b, v) && Stops(u) && Stops(v)
    ensures a == b && u == v
    decreases a, 1
  {
    hide IntText, QuotedThen, ItemsThen, EntriesThen, SortAt;
    SortShows(a, u);
    SortShows(b, v);
    match a {
      case Null =>
        assert ("null" + u)[4..] == u && ("null" + v)[4..] == v;
      case Bool(x) => WordCut(x, b.b, u, v);
      case Num(n) => NumberCut(n, b.n, u, v);
      case Str(s) => QuotedCut(s, b.s, u, v);
      case Arr(items) => ListCut(items, b.items, u, v);
      case Obj(entries) => ObjectCut(entries, b.entries, u, v);
    }
  }

  lemma {:induction false} ListCut(a: seq<Value>, b: seq<Value>, u: string, v: string)
    requires WrittenThen(Arr(a), u) == WrittenThen(Arr(b), v)
    ensures a == b && u == v
    decreases a, 0
  {
    hide ItemsThen, SortAt;
    var x := if a == [] then "]" + u else WrittenThen(a[0], ItemsThen(a[1..], u));
    var y := if b == [] then "]" + v else WrittenThen(b[0], ItemsThen(b[1..], v));
    Behind('[', x, y);
    if a == [] && b == [] {
      Behind(']', u, v);
    } else if a == [] {
      SortShows(b[0], ItemsThen(b[1..], v));
      NoSort();
    } else if b == [] {
      SortShows(a[0], ItemsThen(a[1..], u));
      NoSort();
    } else {
      ItemsStop(a[1..], u);
      ItemsStop(b[1..], v);
      ValueCut(a[0], b[0], ItemsThen(a[1..], u), ItemsThen(b[1..], v));
      ItemsCut(a[1..], b[1..], u, v);
      assert a == [a[0]] + a[1..] && b == [b[0]] + b[1..];
    }
  }

  lemma NoSort()
    ensures SortAt(']') == 6 && SortAt('}') == 6
  {}

  lemma {:induction false} ItemsCut(a: seq<Value>, b: seq<Value>, u: string, v: string)
    requires ItemsThen(a, u) == ItemsThen(b, v)
    ensures a == b && u == v
    decreases a, 0
  {
    hide WrittenThen;
    ItemsStop(a, u);
    ItemsStop(b, v);
    if a == [] {
      Behind(']', u, v);
    } else {
      Behind(',', WrittenThen(a[0], ItemsThen(a[1..], u)), WrittenThen(b[0], ItemsThen(b[1..], v)));
      ItemsStop(a[1..], u);
      ItemsStop(b[1..], v);
      ValueCut(a[0], b[0], ItemsThen(a[1..], u), ItemsThen(b[1..], v));
      ItemsCut(a[1..], b[1..], u, v);
      assert a == [a[0]] + a[1..] && b == [b[0]] + b[1..];
    }
  }

  function EntryThen(entry: Entry, rest: string): string {
    QuotedThen(entry.key, ":" + WrittenThen(entry.value, rest))
  }

  lemma {:induction false} EntryCut(x: Entry, y: Entry, u: string, v: string)
    requires EntryThen(x, u) == EntryThen(y, v) && Stops(u) && Stops(v)
    ensures x == y && u == v
    decreases x, 0
  {
    hide WrittenThen, QuotedThen;
    QuotedCut(x.key, y.key, ":" + WrittenThen(x.value, u), ":" + WrittenThen(y.value, v));
    Behind(':', WrittenThen(x.value, u), WrittenThen(y.value, v));
    ValueCut(x.value, y.value, u, v);
  }

  lemma {:induction false} ObjectCut(a: seq<Entry>, b: seq<Entry>, u: string, v: string)
    requires WrittenThen(Obj(a), u) == WrittenThen(Obj(b), v)
    ensures a == b && u == v
    decreases a, 0
  {
    hide EntriesThen, EscapedThen;
    var x := if a == [] then "}" + u else EntryThen(a[0], EntriesThen(a[1..], u));
    var y := if b == [] then "}" + v else EntryThen(b[0], EntriesThen(b[1..], v));
    Behind('{', x, y);
    assert x[0] == (if a == [] then '}' else '"') && y[0] == (if b == [] then '}' else '"');
    if a == [] {
      Behind('}', u, v);
    } else {
      EntriesStop(a[1..], u);
      EntriesStop(b[1..], v);
      EntryCut(a[0], b[0], EntriesThen(a[1..], u), EntriesThen(b[1..], v));
      EntriesCut(a[1..], b[1..], u, v);
      assert a == [a[0]] + a[1..] && b == [b[0]] + b[1..];
    }
  }

  lemma {:induction false} EntriesCut(a: seq<Entry>, b: seq<Entry>, u: string, v: string)
    requires EntriesThen(a, u) == EntriesThen(b, v)
    ensures a == b && u == v
    decreases a, 0
  {
    hide WrittenThen, QuotedThen;
    EntriesStop(a, u);
    EntriesStop(b, v);
    if a == [] {
      Behind('}', u, v);
    } else {
      Behind(',', EntryThen(a[0], EntriesThen(a[1..], u)), EntryThen(b[0], EntriesThen(b[1..], v)));
      EntriesStop(a[1..], u);
      EntriesStop(b[1..], v);
      EntryCut(a[0], b[0], EntriesThen(a[1..], u), EntriesThen(b[1..], v));
      EntriesCut(a[1..], b[1..], u, v);
      assert a == [a[0]] + a[1..] && b == [b[0]] + b[1..];
    }
  }

  // --- canonical order ------------------------------------------------------------------------

  predicate ByKey(a: Entry, b: Entry) {
    StringLe(a.key, b.key)
  }

  /** Every object sorted by key. */
  function Canon(v: Value): Value
    decreases v
  {
    match v
    case Arr(items) => Arr(CanonItems(items))
    case Obj(entries) => Obj(SortBy(ByKey, CanonEntries(entries)))
    case _ => v
  }

  function CanonItems(items: seq<Value>): (r: seq<Value>)
    ensures |r| == |items|
    decreases items
  {
    if items == [] then [] else [Canon(items[0])] + CanonItems(items[1..])
  }

  function CanonEntries(entries: seq<Entry>): (r: seq<Entry>)
    ensures |r| == |entries|
    decreases entries
  {
    if entries == [] then [] else [Entry(entries[0].key, Canon(entries[0].value))] + CanonEntries(entries[1..])
  }

  function Text(v: Value): string {
    WrittenThen(Canon(v), "")
  }

  /** The keys of every object are distinct, as a mapping's are. */
  ghost predicate WellKeyed(v: Value) {
    match v
    case Arr(items) => forall item | item in items :: WellKeyed(item)
    case Obj(entries) =>
      && (forall i, j | 0 <= i < j < |entries| :: entries[i].key != entries[j].key)
      && forall entry | entry in entries :: WellKeyed(entry.value)
    case _ => true
  }

  /** The same JSON: objects are compared key by key, whatever the order. */
  ghost predicate SameJson(a: Value, b: Value)
    decreases a
  {
    match a
    case Arr(items) => b.Arr? && |b.items| == |items| && forall i | 0 <= i < |items| :: SameJson(items[i], b.items[i])
    case Obj(entries) =>
      && b.Obj?
      && (forall i | 0 <= i < |entries| ::
            Find(b.entries, entries[i].key).Some? && SameJson(entries[i].value, Find(b.entries, entries[i].key).value))
      && (forall j | 0 <= j < |b.entries| :: Find(entries, b.entries[j].key).Some?)
    case _ => b == a
  }

  lemma {:induction false} CanonItemsAt(items: seq<Value>, i: nat)
    requires i < |items|
    ensures CanonItems(items)[i] == Canon(items[i])
  {
    hide Canon;
    if i > 0 {
      CanonItemsAt(items[1..], i - 1);
    }
  }

  lemma {:induction false} CanonEntriesAt(entries: seq<Entry>, i: nat)
    requires i < |entries|
    ensures CanonEntries(entries)[i] == Entry(entries[i].key, Canon(entries[i].value))
  {
    hide Canon;
    if i > 0 {
      CanonEntriesAt(entries[1..], i - 1);
    }
  }

  lemma {:induction false} FindAtKey(entries: seq<Entry>, j: nat)
    requires j < |entries| && forall i, k | 0 <= i < k < |entries| :: entries[i].key != entries[k].key
    ensures Find(entries, entries[j].key) == Some(entries[j].value)
  {
    if j > 0 {
      FindAtKey(entries[1..], j - 1);
    }
  }

  lemma {:induction false} FoundSomewhere(entries: seq<Entry>, key: string) returns (j: nat)
    requires Find(entries, key).Some?
    ensures j < |entries| && entries[j].key == key && Find(entries, key) == Some(entries[j].value)
  {
    if entries[0].key == key {
      j := 0;
    } else {
      j := FoundSomewhere(entries[1..], key);
      j := j + 1;
    }
  }

  ghost predicate DistinctKeys(entries: seq<Entry>) {
    forall i, j | 0 <= i < j < |entries| :: entries[i].key != entries[j].key
  }

  lemma {:induction false} SameSets(a: seq<Entry>, b: seq<Entry>)
    requires Distinct(a) && Distinct(b) && forall x :: x in a <==> x in b
    ensures multiset(a) == multiset(b)
  {
    DistinctMultiplicity(a);
    DistinctMultiplicity(b);
    forall x ensures multiset(a)[x] == multiset(b)[x] {
      assert x in a <==> x in multiset(a);
      assert x in b <==> x in multiset(b);
    }
  }

  lemma {:induction false} KeyOrders(entries: seq<Entry>)
    requires DistinctKeys(entries)
    ensures TotalPreorder(ByKey) && NoTies(ByKey, entries) && Distinct(entries)
  {
    StringLeOrders();
    forall a, b | a in entries && b in entries && a.key == b.key ensures a == b {
      var i :| 0 <= i < |entries| && entries[i] == a;
      var j :| 0 <= j < |entries| && entries[j] == b;
    }
  }

  lemma {:induction false} CanonKeys(entries: seq<Entry>)
    requires DistinctKeys(entries)
    ensures DistinctKeys(CanonEntries(entries))
    ensures forall i | 0 <= i < |entries| :: CanonEntries(entries)[i] == Entry(entries[i].key, Canon(entries[i].value))
  {
    hide Canon, CanonEntries;
    forall i | 0 <= i < |entries| ensures CanonEntries(entries)[i] == Entry(entries[i].key, Canon(entries[i].value)) {
      CanonEntriesAt(entries, i);
    }
  }

  /** Values under one key are the same JSON exactly when they have one canonical form. */
  ghost predicate ValuesAgree(a: seq<Entry>, b: seq<Entry>) {
    forall i, j | 0 <= i < |a| && 0 <= j < |b| && a[i].key == b[j].key ::
      SameJson(a[i].value, b[j].value) <==> Canon(a[i].value) == Canon(b[j].value)
  }

  lemma {:induction false} SameObjectMeans(x: seq<Entry>, y: seq<Entry>)
    ensures SameJson(Obj(x), Obj(y)) <==>
      && (forall i | 0 <= i < |x| :: Find(y, x[i].key).Some? && SameJson(x[i].value, Find(y, x[i].key).value))
      && (forall j | 0 <= j < |y| :: Find(x, y[j].key).Some?)
  {
    hide Find;
  }

  lemma {:induction false} EntryOfSame(a: seq<Entry>, b: seq<Entry>, i: nat, j: nat)
    requires i < |a| && j < |b| && a[i].key == b[j].key && DistinctKeys(a) && DistinctKeys(b) && ValuesAgree(a, b)
    requires Find(b, a[i].key).Some? && SameJson(a[i].value, Find(b, a[i].key).value)
    ensures CanonEntries(a)[i] == CanonEntries(b)[j]
  {
    hide Canon, CanonEntries, Find, SameJson;
    FindAtKey(b, j);
    CanonEntriesAt(a, i);
    CanonEntriesAt(b, j);
  }

  lemma {:induction false} SameObjectsMembers(a: seq<Entry>, b: seq<Entry>)
    requires DistinctKeys(a) && DistinctKeys(b) && ValuesAgree(a, b) && SameJson(Obj(a), Obj(b))
    ensures forall x :: x in CanonEntries(a) <==> x in CanonEntries(b)
  {
    hide Canon, CanonEntries, Find, SameJson, ValuesAgree, DistinctKeys;
    SameObjectMeans(a, b);
    var ca, cb := CanonEntries(a), CanonEntries(b);
    forall x | x in ca ensures x in cb {
      var i :| 0 <= i < |ca| && ca[i] == x;
      var j := FoundSomewhere(b, a[i].key);
      EntryOfSame(a, b, i, j);
    }
    forall x | x in cb ensures x in ca {
      var j :| 0 <= j < |cb| && cb[j] == x;
      var i := FoundSomewhere(a, b[j].key);
      assert Find(b, a[i].key).Some?;
      EntryOfSame(a, b, i, j);
    }
  }

  lemma {:induction false} MembersSameObjects(a: seq<Entry>, b: seq<Entry>)
    requires DistinctKeys(a) && DistinctKeys(b) && ValuesAgree(a, b)
    requires forall x :: x in CanonEntries(a) <==> x in CanonEntries(b)
    ensures SameJson(Obj(a), Obj(b))
  {
    hide Canon, CanonEntries, Find, SameJson;
    SameObjectMeans(a, b);
    CanonKeys(a);
    CanonKeys(b);
    var ca, cb := CanonEntries(a), CanonEntries(b);
    forall i | 0 <= i < |a| ensures Find(b, a[i].key).Some? && SameJson(a[i].value, Find(b, a[i].key).value) {
      assert ca[i] in ca;
      var j :| 0 <= j < |cb| && cb[j] == ca[i];
      FindAtKey(b, j);
    }
    forall j | 0 <= j < |b| ensures Find(a, b[j].key).Some? {
      assert cb[j] in cb;
      var i :| 0 <= i < |ca| && ca[i] == cb[j];
      FindAtKey(a, i);
    }
  }

  lemma {:induction false} ObjectsAgree(a: seq<Entry>, b: seq<Entry>)
    requires DistinctKeys(a) && DistinctKeys(b) && ValuesAgree(a, b)
    ensures SameJson(Obj(a), Obj(b)) <==> Canon(Obj(a)) == Canon(Obj(b))
  {
    hide SameJson, CanonEntries, SortBy, ValuesAgree;
    var ca, cb := CanonEntries(a), CanonEntries(b);
    CanonKeys(a);
    CanonKeys(b);
    KeyOrders(ca);
    KeyOrders(cb);
    if SameJson(Obj(a), Obj(b)) {
      SameObjectsMembers(a, b);
      SameSets(ca, cb);
      SortUnique(ByKey, ca, cb);
    }
    if SortBy(ByKey, ca) == SortBy(ByKey, cb) {
      SameMembers(ca, cb);
      MembersSameObjects(a, b);
    }
  }

  /** One canonical form is being the same JSON. */
  lemma {:induction false} CanonDecides(a: Value, b: Value)
    requires WellKeyed(a) && WellKeyed(b)
    ensures SameJson(a, b) <==> Canon(a) == Canon(b)
    decreases a
  {
    if a.Arr? && b.Arr? {
      forall i | 0 <= i < |a.items| && i < |b.items| ensures SameJson(a.items[i], b.items[i]) <==> CanonItems(a.items)[i] == CanonItems(b.items)[i] {
        CanonDecides(a.items[i], b.items[i]);
        CanonItemsAt(a.items, i);
        CanonItemsAt(b.items, i);
      }
    } else if a.Obj? && b.Obj? {
      forall i, j | 0 <= i < |a.entries| && 0 <= j < |b.entries|
        ensures SameJson(a.entries[i].value, b.entries[j].value) <==> Canon(a.entries[i].value) == Canon(b.entries[j].value)
      {
        assert a.entries[i] in a.entries && b.entries[j] in b.entries;
        CanonDecides(a.entries[i].value, b.entries[j].value);
      }
      ObjectsAgree(a.entries, b.entries);
    }
  }

  /** Two values have the same canonical text exactly when they are the same JSON. */
  lemma TextDecides(a: Value, b: Value)
    requires WellKeyed(a) && WellKeyed(b)
    ensures Text(a) == Text(b) <==> SameJson(a, b)
  {
    hide Canon, WrittenThen, SameJson;
    CanonDecides(a, b);
    if Text(a) == Text(b) {
      ValueCut(Canon(a), Canon(b), "", "");
    }
  }

  // --- equality at evaluation --------------------------------------------------------------

  /** Truth values as the numbers the language takes them for. */
  function Plain(v: Value): Value
    decreases v
  {
    match v
    case Bool(b) => Num(if b then 1 else 0)
    case Arr(items) => Arr(seq(|items|, i requires 0 <= i < |items| => Plain(items[i])))
    case Obj(entries) => Obj(seq(|entries|, i requires 0 <= i < |entries| => Entry(entries[i].key, Plain(entries[i].value))))
    case _ => v
  }

  lemma {:induction false} FindPlain(entries: seq<Entry>, plain: seq<Entry>, key: string)
    requires |plain| == |entries|
    requires forall i | 0 <= i < |entries| :: plain[i] == Entry(entries[i].key, Plain(entries[i].value))
    ensures Find(plain, key) == if Find(entries, key) == None then None else Some(Plain(Find(entries, key).value))
  {
    hide Plain;
    if entries != [] {
      FindPlain(entries[1..], plain[1..], key);
    }
  }

  ghost function KeySet(entries: seq<Entry>): set<string> {
    set i | 0 <= i < |entries| :: entries[i].key
  }

  lemma {:induction false} KeySetSize(entries: seq<Entry>)
    requires DistinctKeys(entries)
    ensures |KeySet(entries)| == |entries|
  {
    if entries != [] {
      var last := |entries| - 1;
      KeySetSize(entries[..last]);
      assert KeySet(entries) == KeySet(entries[..last]) + {entries[last].key};
    }
  }

  lemma {:induction false} SubsetIsAll(a: set<string>, b: set<string>)
    requires a <= b && |a| == |b|
    ensures a == b
  {
    if x :| x in b && x !in a {
      SubsetBound(a, b - {x});
    }
  }

  lemma {:induction false} SubsetBound(a: set<string>, b: set<string>)
    requires a <= b
    ensures |a| <= |b|
  {
    if x :| x in a {
      SubsetBound(a - {x}, b - {x});
    }
  }

  lemma {:induction false} FindInKeys(entries: seq<Entry>, key: string)
    ensures Find(entries, key).Some? <==> key in KeySet(entries)
  {
    if entries != [] {
      FindInKeys(entries[1..], key);
      assert KeySet(entries) == {entries[0].key} + KeySet(entries[1..]) by {
        forall k | k in KeySet(entries) ensures k == entries[0].key || k in KeySet(entries[1..]) {
          var i :| 0 <= i < |entries| && entries[i].key == k;
          assert i > 0 ==> entries[1..][i - 1].key == k;
        }
        forall k | k in KeySet(entries[1..]) ensures k in KeySet(entries) {
          var i :| 0 <= i < |entries[1..]| && entries[1..][i].key == k;
          assert entries[i + 1].key == k;
        }
      }
    }
  }

  /** Objects with distinct keys: as many entries and each found, exactly when the keys are
      the same and each is found. */
  lemma {:induction false} KeysMatch(a: seq<Entry>, b: seq<Entry>)
    requires DistinctKeys(a) && DistinctKeys(b) && forall i | 0 <= i < |a| :: Find(b, a[i].key).Some?
    ensures |a| == |b| <==> forall j | 0 <= j < |b| :: Find(a, b[j].key).Some?
  {
    hide Find;
    forall key ensures Find(a, key).Some? <==> key in KeySet(a) {
      FindInKeys(a, key);
    }
    forall key ensures Find(b, key).Some? <==> key in KeySet(b) {
      FindInKeys(b, key);
    }
    KeySetSize(a);
    KeySetSize(b);
    assert KeySet(a) <= KeySet(b);
    if |a| == |b| {
      SubsetIsAll(KeySet(a), KeySet(b));
    }
    if forall j | 0 <= j < |b| :: Find(a, b[j].key).Some? {
      assert KeySet(b) <= KeySet(a);
      assert KeySet(a) == KeySet(b);
    }
  }

  /** The equality conditions are evaluated with is being the same JSON, with truth values
      counted as numbers. */
  lemma {:induction false} EqualIsSameJson(a: Value, b: Value)
    requires WellKeyed(a) && WellKeyed(b)
    ensures Equal(a, b) <==> SameJson(Plain(a), Plain(b))
    decreases a
  {
    if a.Arr? && b.Arr? {
      forall i | 0 <= i < |a.items| && i < |b.items| ensures Equal(a.items[i], b.items[i]) <==> SameJson(Plain(a.items[i]), Plain(b.items[i])) {
        EqualIsSameJson(a.items[i], b.items[i]);
      }
      var pa, pb := Plain(a).items, Plain(b).items;
      assert forall i | 0 <= i < |a.items| :: pa[i] == Plain(a.items[i]);
      assert forall i | 0 <= i < |b.items| :: pb[i] == Plain(b.items[i]);
      assert SameJson(Arr(pa), Arr(pb)) <==> |pb| == |pa| && forall i | 0 <= i < |pa| :: SameJson(pa[i], pb[i]);
    } else if a.Obj? && b.Obj? {
      EqualObjects(a.entries, b.entries);
    }
  }

  /** Entry by entry, found under the same keys, equal exactly when the same as plain JSON. */
  ghost predicate EntriesAgree(a: seq<Entry>, b: seq<Entry>, pa: seq<Entry>, pb: seq<Entry>) {
    && |pa| == |a| && |pb| == |b|
    && (forall i | 0 <= i < |a| :: pa[i].key == a[i].key)
    && (forall j | 0 <= j < |b| :: pb[j].key == b[j].key && (Find(pa, b[j].key).Some? <==> Find(a, b[j].key).Some?))
    && forall i | 0 <= i < |a| ::
         && (Find(pb, a[i].key).Some? <==> Find(b, a[i].key).Some?)
         && (Find(b, a[i].key).Some? ==>
               (Equal(a[i].value, Find(b, a[i].key).value) <==> SameJson(pa[i].value, Find(pb, a[i].key).value)))
  }

  lemma AgreeingObjects(a: seq<Entry>, b: seq<Entry>, pa: seq<Entry>, pb: seq<Entry>)
    requires DistinctKeys(a) && DistinctKeys(b) && EntriesAgree(a, b, pa, pb)
    ensures Equal(Obj(a), Obj(b)) <==> SameJson(Obj(pa), Obj(pb))
  {
    hide Find, Equal, SameJson, DistinctKeys;
    EqualObjectMeans(a, b);
    SameObjectMeans(pa, pb);
    if forall i | 0 <= i < |a| :: Find(b, a[i].key).Some? {
      KeysMatch(a, b);
    }
  }

  lemma {:induction false} EqualObjects(a: seq<Entry>, b: seq<Entry>)
    requires WellKeyed(Obj(a)) && WellKeyed(Obj(b))
    ensures Equal(Obj(a), Obj(b)) <==> SameJson(Plain(Obj(a)), Plain(Obj(b)))
    decreases a
  {
    hide Find, Equal, SameJson;
    var pa, pb := Plain(Obj(a)).entries, Plain(Obj(b)).entries;
    PlainEntries(a, pa);
    PlainEntries(b, pb);
    hide Plain;
    forall i | 0 <= i < |a| && Find(b, a[i].key).Some?
      ensures Equal(a[i].value, Find(b, a[i].key).value) <==> SameJson(Plain(a[i].value), Plain(Find(b, a[i].key).value))
    {
      var j := FoundSomewhere(b, a[i].key);
      assert a[i] in a && b[j] in b;
      EqualIsSameJson(a[i].value, b[j].value);
    }
    AgreeingObjects(a, b, pa, pb);
  }

  lemma {:induction false} PlainEntries(a: seq<Entry>, pa: seq<Entry>)
    requires Plain(Obj(a)) == Obj(pa)
    ensures |pa| == |a| && forall i | 0 <= i < |a| :: pa[i] == Entry(a[i].key, Plain(a[i].value))
    ensures forall key :: Find(pa, key) == if Find(a, key) == None then None else Some(Plain(Find(a, key).value))
  {
    hide Find;
    forall key ensures Find(pa, key) == if Find(a, key) == None then None else Some(Plain(Find(a, key).value)) {
      FindPlain(a, pa, key);
    }
  }

  lemma EqualObjectMeans(a: seq<Entry>, b: seq<Entry>)
    ensures Equal(Obj(a), Obj(b)) <==>
              |b| == |a| && forall i | 0 <= i < |a| :: Find(b, a[i].key).Some? && Equal(a[i].value, Find(b, a[i].key).value)
  {
    hide Find;
  }

  // --- the format itself ----------------------------------------------------------------------

  lemma HexIsPlain(n: nat)
    requires n < 0x1_0000
    ensures forall x | x in Hex4(n) :: 48 <= x as int <= 102
  {}

  /** How characters are written: as they are, by a letter, or in four hexadecimal digits. */
  lemma CharactersAreWritten(c: char)
    ensures 32 <= c as int <= 126 && c as int !in {34, 92} ==> EscapeChar(c) == [c]
    ensures EscapeChar(10 as char) == "\\n" && EscapeChar(34 as char) == "\\\"" && EscapeChar(92 as char) == "\\\\"
    ensures EscapeChar(0xE9 as char) == "\\u00e9"
  {
    assert Hex4(0xE9) == "00e9";
  }

  /** And always in printable ASCII. */
  lemma OnlyAsciiIsWritten(c: char)
    ensures forall x | x in EscapeChar(c) :: 32 <= x as int <= 126
  {
    hide Hex4;
    if (c as int) < 0x1_0000 {
      HexIsPlain(c as int);
    } else {
      var n := c as int - 0x1_0000;
      HexIsPlain(0xD800 + n / 1024);
      HexIsPlain(0xDC00 + n % 1024);
    }
  }

  /** How values are written, without spaces: members and items with commas between them. */
  lemma ValuesAreWritten(v: Value, w: Value, key: string, other: string)
    ensures WrittenThen(Null, "") == "null" && WrittenThen(Bool(true), "") == "true" && WrittenThen(Bool(false), "") == "false"
    ensures WrittenThen(Arr([]), "") == "[]" && WrittenThen(Obj([]), "") == "{}"
    ensures WrittenThen(Arr([v, w]), "") == "[" + WrittenThen(v, "," + WrittenThen(w, "]"))
    ensures WrittenThen(Obj([Entry(key, v), Entry(other, w)]), "") ==
            "{" + QuotedThen(key, ":" + WrittenThen(v, "," + QuotedThen(other, ":" + WrittenThen(w, "}"))))
    ensures WrittenThen(Str(""), "") == "\"\"" && WrittenThen(Num(-10), "") == "-10"
  {
    hide EscapeChar;
    assert [v, w][1..] == [w] && [w][1..] == [];
    assert ItemsThen([], "") == "]" && ItemsThen([w], "") == "," + WrittenThen(w, ItemsThen([], ""));
    var a, b := Entry(key, v), Entry(other, w);
    assert EntriesThen([], "") == "}";
    assert EntriesThen([b], "") == "," + QuotedThen(other, ":" + WrittenThen(w, EntriesThen([], "")));
    assert [a, b][1..] == [b] && [b][1..] == [];
    assert Strings.Decimal(10) == Strings.Decimal(1) + "0" && Strings.Decimal(1) == "1";
  }
}
