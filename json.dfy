/** `json.dumps(value, sort_keys=True)` for the JSON values a ledger block is
    made of, with Python's defaults: separators ", " and ": ", no indentation,
    and `ensure_ascii=True` (every character outside printable ASCII is
    written as a `\uXXXX` escape, lower-case hex, as a surrogate pair above
    U+FFFF). */
module Json {
  import Decimal
  import Encoding

  /** Characters a Python float's `repr` is made of (digits, sign, point,
      exponent). The wall-clock time is carried as that text. */
  predicate IsFloatText(s: string) {
    |s| > 0 && forall i :: 0 <= i < |s| ==> s[i] in "0123456789.e+-"
  }

  type FloatText = s: string | IsFloatText(s) witness "0.0"

  /** A JSON value. An object keeps its members in insertion order, as a
      Python dict does. */
  datatype Json =
    | JInt(i: int)
    | JFloat(repr: FloatText)
    | JString(s: string)
    | JArray(items: seq<Json>)
    | JObject(fields: seq<(string, Json)>)

  // ---------------------------------------------------------------------------
  // Strings

  const HexDigits := "0123456789abcdef"

  function HexDigit(d: nat): char
    requires d < 16
  {
    HexDigits[d]
  }

  /** Four lower-case hex digits of a 16-bit code unit. */
  function Hex4(n: nat): string
    requires n < 0x10000
  {
    [HexDigit(n / 0x1000), HexDigit(n / 0x100 % 0x10), HexDigit(n / 0x10 % 0x10), HexDigit(n % 0x10)]
  }

  /** The escape `json.dumps` writes for one character of a string. */
  function EscapeChar(c: char): string {
    var n := c as int;
    if c == '"' then "\\\""
    else if c == '\\' then "\\\\"
    else if ' ' <= c <= '~' then [c]
    else if n == 0x08 then "\\b"
    else if n == 0x0C then "\\f"
    else if c == '\n' then "\\n"
    else if c == '\r' then "\\r"
    else if c == '\t' then "\\t"
    else if n < 0x10000 then "\\u" + Hex4(n)
    else SurrogatePair(n - 0x10000)
  }

  /** The UTF-16 surrogate pair of a character above U+FFFF, offset `m`. */
  function SurrogatePair(m: nat): string
    requires m < 0x100000
  {
    "\\u" + Hex4(0xD800 + m / 0x400) + "\\u" + Hex4(0xDC00 + m % 0x400)
  }

  function Escape(s: string): string {
    if s == [] then [] else EscapeChar(s[0]) + Escape(s[1..])
  }

  /** A string literal: the escaped text between double quotes. */
  function Quote(s: string): string {
    "\"" + Escape(s) + "\""
  }

  lemma Hex4IsAscii(n: nat)
    requires n < 0x10000
    ensures Encoding.IsAscii(Hex4(n))
  {
    forall d | 0 <= d < 16 ensures HexDigit(d) as int < 0x80 {
      assert HexDigits[d] in HexDigits;
    }
  }

  lemma EscapeCharIsAscii(c: char)
    ensures Encoding.IsAscii(EscapeChar(c))
  {
    var n := c as int;
    if c == '"' || c == '\\' {
      assert EscapeChar(c) == ['\\', c];
    } else if ' ' <= c <= '~' {
      assert EscapeChar(c) == [c];
    } else if n == 0x08 || n == 0x0C || c == '\n' || c == '\r' || c == '\t' {
      assert EscapeChar(c) in {"\\b", "\\f", "\\n", "\\r", "\\t"};
      assert forall e | e in {"\\b", "\\f", "\\n", "\\r", "\\t"} :: Encoding.IsAscii(e);
    } else if n < 0x10000 {
      assert EscapeChar(c) == "\\u" + Hex4(n);
      Hex4IsAscii(n);
      Encoding.AsciiConcat("\\u", Hex4(n));
    } else {
      SurrogatePairIsAscii(n - 0x10000);
    }
  }

  lemma SurrogatePairIsAscii(m: nat)
    requires m < 0x100000
    ensures Encoding.IsAscii(SurrogatePair(m))
  {
    var hi, lo := Hex4(0xD800 + m / 0x400), Hex4(0xDC00 + m % 0x400);
    Hex4IsAscii(0xD800 + m / 0x400);
    Hex4IsAscii(0xDC00 + m % 0x400);
    Encoding.AsciiConcat("\\u", hi);
    Encoding.AsciiConcat("\\u" + hi, "\\u");
    Encoding.AsciiConcat("\\u" + hi + "\\u", lo);
  }

  /** With `ensure_ascii`, every escaped string is pure ASCII. */
  lemma {:induction false} EscapeIsAscii(s: string)
    ensures Encoding.IsAscii(Escape(s))
  {
    if s != [] {
      EscapeCharIsAscii(s[0]);
      EscapeIsAscii(s[1..]);
      Encoding.AsciiConcat(EscapeChar(s[0]), Escape(s[1..]));
    }
  }

  lemma QuoteIsAscii(s: string)
    ensures Encoding.IsAscii(Quote(s))
  {
    EscapeIsAscii(s);
    Encoding.AsciiConcat("\"", Escape(s));
    Encoding.AsciiConcat("\"" + Escape(s), "\"");
  }

  /** Printable ASCII other than the quote and the backslash: written as is. */
  predicate IsPlain(s: string) {
    forall i :: 0 <= i < |s| ==> ' ' <= s[i] <= '~' && s[i] != '"' && s[i] != '\\'
  }

  lemma {:induction false} EscapePlain(s: string)
    requires IsPlain(s)
    ensures Escape(s) == s
  {
    if s != [] {
      EscapePlain(s[1..]);
    }
  }

  lemma QuotePlain(s: string)
    requires IsPlain(s)
    ensures Quote(s) == "\"" + s + "\""
  {
    EscapePlain(s);
  }

  // ---------------------------------------------------------------------------
  // Key order: Python compares strings by code point, lexicographically.

  predicate KeyLess(a: string, b: string) {
    if a == [] then b != []
    else if b == [] then false
    else a[0] < b[0] || (a[0] == b[0] && KeyLess(a[1..], b[1..]))
  }

  lemma {:induction false} KeyLessIrreflexive(a: string)
    ensures !KeyLess(a, a)
  {
    if a != [] {
      KeyLessIrreflexive(a[1..]);
    }
  }

  lemma {:induction false} KeyLessTransitive(a: string, b: string, c: string)
    requires KeyLess(a, b) && KeyLess(b, c)
    ensures KeyLess(a, c)
  {
    if a != [] && b != [] && c != [] && a[0] == b[0] == c[0] {
      KeyLessTransitive(a[1..], b[1..], c[1..]);
    }
  }

  lemma {:induction false} KeyLessTotal(a: string, b: string)
    requires a != b
    ensures KeyLess(a, b) || KeyLess(b, a)
  {
    if a != [] && b != [] && a[0] == b[0] {
      assert a == [a[0]] + a[1..] && b == [b[0]] + b[1..];
      KeyLessTotal(a[1..], b[1..]);
    }
  }

  lemma {:induction false} KeyLessAsymmetric(a: string, b: string)
    requires KeyLess(a, b)
    ensures !KeyLess(b, a)
  {
    if KeyLess(b, a) {
      KeyLessTransitive(a, b, a);
      KeyLessIrreflexive(a);
    }
  }

  // ---------------------------------------------------------------------------
  // Sorting the members of an object by key

  type Member = (string, Json)

  /** A dict has each key once. */
  predicate DistinctKeys(fs: seq<Member>) {
    forall i, j :: 0 <= i < j < |fs| ==> fs[i].0 != fs[j].0
  }

  predicate SortedByKey(fs: seq<Member>) {
    forall i, j :: 0 <= i < j < |fs| ==> KeyLess(fs[i].0, fs[j].0)
  }

  function InsertByKey(m: Member, fs: seq<Member>): (r: seq<Member>)
    ensures multiset(r) == multiset(fs) + multiset{m}
  {
    if fs == [] || KeyLess(m.0, fs[0].0) then [m] + fs
    else
      assert fs == [fs[0]] + fs[1..];
      [fs[0]] + InsertByKey(m, fs[1..])
  }

  /** `sorted(d.items())` for a dict `d` given by its members. */
  function SortByKey(fs: seq<Member>): (r: seq<Member>)
    ensures multiset(r) == multiset(fs)
  {
    if fs == [] then []
    else
      assert fs == [fs[0]] + fs[1..];
      InsertByKey(fs[0], SortByKey(fs[1..]))
  }

  lemma {:induction false} InsertByKeySorted(m: Member, fs: seq<Member>)
    requires SortedByKey(fs)
    requires forall k :: 0 <= k < |fs| ==> fs[k].0 != m.0
    ensures SortedByKey(InsertByKey(m, fs))
  {
    if fs == [] || KeyLess(m.0, fs[0].0) {
      forall j | 0 < j <= |fs| ensures KeyLess(m.0, ([m] + fs)[j].0) {
        if j > 1 {
          KeyLessTransitive(m.0, fs[0].0, fs[j - 1].0);
        }
      }
    } else {
      KeyLessTotal(m.0, fs[0].0);
      var rest := InsertByKey(m, fs[1..]);
      InsertByKeySorted(m, fs[1..]);
      var r := [fs[0]] + rest;
      forall j | 0 < j < |r| ensures KeyLess(fs[0].0, r[j].0) {
        assert r[j] in multiset(rest);
        assert r[j] in multiset(fs[1..]) + multiset{m};
        if r[j] != m {
          var k :| 0 <= k < |fs[1..]| && fs[1..][k] == r[j];
        }
      }
    }
  }

  /** With distinct keys, sorting orders the members strictly by key. */
  lemma {:induction false} SortByKeySorted(fs: seq<Member>)
    requires DistinctKeys(fs)
    ensures SortedByKey(SortByKey(fs))
  {
    if fs != [] {
      SortByKeySorted(fs[1..]);
      var rest := SortByKey(fs[1..]);
      forall k | 0 <= k < |rest| ensures rest[k].0 != fs[0].0 {
        assert rest[k] in multiset(fs[1..]);
        var i :| 0 <= i < |fs[1..]| && fs[1..][i] == rest[k];
        assert fs[i + 1] == rest[k];
      }
      InsertByKeySorted(fs[0], rest);
    }
  }

  lemma SortedHeadIsLeast(a: seq<Member>, x: Member)
    requires SortedByKey(a) && x in a && x != a[0]
    ensures KeyLess(a[0].0, x.0)
  {
    var i :| 0 <= i < |a| && a[i] == x;
  }

  lemma TailMultiset(a: seq<Member>)
    requires a != []
    ensures multiset(a[1..]) == multiset(a) - multiset{a[0]}
  {
    assert a == [a[0]] + a[1..];
  }

  /** Two key-sorted member lists holding the same members are the same list. */
  lemma {:induction false} SortedUnique(a: seq<Member>, b: seq<Member>)
    requires SortedByKey(a) && SortedByKey(b)
    requires multiset(a) == multiset(b)
    ensures a == b
  {
    if a != [] {
      assert a[0] in multiset(b) && b[0] in multiset(a);
      if a[0] != b[0] {
        // each head would have to be below the other
        SortedHeadIsLeast(b, a[0]);
        SortedHeadIsLeast(a, b[0]);
        KeyLessAsymmetric(a[0].0, b[0].0);
        assert false;
      }
      TailMultiset(a);
      TailMultiset(b);
      SortedUnique(a[1..], b[1..]);
      assert a == [a[0]] + a[1..] && b == [b[0]] + b[1..];
    }
  }

  /** `sort_keys=True` makes the order of the members independent of the
      order in which the dict's keys were inserted. */
  lemma SortByKeyIgnoresInsertionOrder(p: seq<Member>, q: seq<Member>)
    requires DistinctKeys(p) && DistinctKeys(q)
    requires multiset(p) == multiset(q)
    ensures SortByKey(p) == SortByKey(q)
  {
    SortByKeySorted(p);
    SortByKeySorted(q);
    SortedUnique(SortByKey(p), SortByKey(q));
  }

  // ---------------------------------------------------------------------------
  // Serialisation

  function Join(parts: seq<string>, sep: string): string {
    if parts == [] then ""
    else if |parts| == 1 then parts[0]
    else parts[0] + sep + Join(parts[1..], sep)
  }

  /** `json.dumps(j, sort_keys=True)`. */
  function Dumps(j: Json): string
    decreases j
  {
    match j
    case JInt(i) => Decimal.IntText(i)
    case JFloat(t) => t
    case JString(s) => Quote(s)
    case JArray(items) =>
      var parts := seq(|items|, k requires 0 <= k < |items| => Dumps(items[k]));
      Enclose("[", Join(parts, ", "), "]")
    case JObject(fields) =>
      var sorted := SortByKey(fields);
      var parts := seq(|sorted|, k requires 0 <= k < |sorted| =>
                         assert sorted[k] in multiset(fields);
                         MemberText(Quote(sorted[k].0), Dumps(sorted[k].1)));
      Enclose("{", Join(parts, ", "), "}")
  }

  lemma IntTextIsAscii(i: int)
    ensures Encoding.IsAscii(Decimal.IntText(i))
  {
    var s := Decimal.IntText(i);
    forall k | 0 <= k < |s| ensures s[k] as int < 0x80 {
      if k > 0 {
        assert s[k] == s[1..][k - 1];
      }
    }
  }

  lemma FloatTextIsAscii(t: FloatText)
    ensures Encoding.IsAscii(t)
  {
    forall k | 0 <= k < |t| ensures t[k] as int < 0x80 {
      assert t[k] in "0123456789.e+-";
    }
  }

  /** With `ensure_ascii`, the dumped text is pure ASCII, so its UTF-8
      encoding is one byte per character. */
  lemma {:induction false} DumpsIsAscii(j: Json)
    ensures Encoding.IsAscii(Dumps(j))
    decreases j, 1
  {
    match j
    case JInt(i) => IntTextIsAscii(i);
    case JFloat(t) => FloatTextIsAscii(t);
    case JString(s) => QuoteIsAscii(s);
    case JArray(_) => ArrayIsAscii(j);
    case JObject(_) => ObjectIsAscii(j);
  }

  lemma {:induction false} ArrayIsAscii(j: Json)
    requires j.JArray?
    ensures Encoding.IsAscii(Dumps(j))
    decreases j, 0
  {
    var items := j.items;
    var parts := seq(|items|, k requires 0 <= k < |items| => Dumps(items[k]));
    forall k | 0 <= k < |parts| ensures Encoding.IsAscii(parts[k]) {
      DumpsIsAscii(items[k]);
    }
    EncloseJoinIsAscii("[", parts, "]");
    assert Dumps(j) == Enclose("[", Join(parts, ", "), "]");
  }

  lemma {:induction false} ObjectIsAscii(j: Json)
    requires j.JObject?
    ensures Encoding.IsAscii(Dumps(j))
    decreases j, 0
  {
    var sorted := SortByKey(j.fields);
    var parts := MemberTexts(sorted);
    forall k | 0 <= k < |parts| ensures Encoding.IsAscii(parts[k]) {
      assert sorted[k] in multiset(j.fields);
      DumpsIsAscii(sorted[k].1);
      MemberTextIsAscii(sorted[k].0, Dumps(sorted[k].1));
    }
    ObjectDumps(j.fields);
    EncloseJoinIsAscii("{", parts, "}");
    assert Dumps(j) == Enclose("{", Join(parts, ", "), "}");
  }

  lemma EncloseJoinIsAscii(open: string, parts: seq<string>, close: string)
    requires Encoding.IsAscii(open) && Encoding.IsAscii(close)
    requires forall k :: 0 <= k < |parts| ==> Encoding.IsAscii(parts[k])
    ensures Encoding.IsAscii(Enclose(open, Join(parts, ", "), close))
  {
    JoinIsAscii(parts, ", ");
    Encoding.AsciiConcat(open, Join(parts, ", "));
    Encoding.AsciiConcat(open + Join(parts, ", "), close);
  }

  /** Joining ASCII parts with an ASCII separator gives ASCII text. */
  lemma {:induction false} JoinIsAscii(parts: seq<string>, sep: string)
    requires Encoding.IsAscii(sep)
    requires forall k :: 0 <= k < |parts| ==> Encoding.IsAscii(parts[k])
    ensures Encoding.IsAscii(Join(parts, sep))
  {
    if |parts| > 1 {
      JoinIsAscii(parts[1..], sep);
      Encoding.AsciiConcat(parts[0], sep);
      Encoding.AsciiConcat(parts[0] + sep, Join(parts[1..], sep));
    }
  }

  lemma MemberTextIsAscii(key: string, value: string)
    requires Encoding.IsAscii(value)
    ensures Encoding.IsAscii(MemberText(Quote(key), value))
  {
    QuoteIsAscii(key);
    Encoding.AsciiConcat(Quote(key), ": ");
    Encoding.AsciiConcat(Quote(key) + ": ", value);
  }

  /** One `"key": value` pair of an object. */
  function MemberText(key: string, value: string): string {
    key + ": " + value
  }

  function Enclose(open: string, body: string, close: string): string {
    open + body + close
  }

  /** The `"key": value` texts of members, in the order given. */
  function MemberTexts(ms: seq<Member>): (r: seq<string>)
    ensures |r| == |ms|
  {
    seq(|ms|, k requires 0 <= k < |ms| => MemberText(Quote(ms[k].0), Dumps(ms[k].1)))
  }

  lemma MemberTextsOfThree(a: Member, b: Member, c: Member)
    ensures MemberTexts([a, b, c]) == [MemberText(Quote(a.0), Dumps(a.1)), MemberText(Quote(b.0), Dumps(b.1)), MemberText(Quote(c.0), Dumps(c.1))]
  {
  }

  lemma MemberTextsOfFive(a: Member, b: Member, c: Member, d: Member, e: Member)
    ensures MemberTexts([a, b, c, d, e]) ==
      [ MemberText(Quote(a.0), Dumps(a.1)), MemberText(Quote(b.0), Dumps(b.1)), MemberText(Quote(c.0), Dumps(c.1)),
        MemberText(Quote(d.0), Dumps(d.1)), MemberText(Quote(e.0), Dumps(e.1)) ]
  {
  }

  /** An object is dumped as its members' texts in key order, between braces. */
  lemma ObjectDumps(fields: seq<Member>)
    ensures Dumps(JObject(fields)) == "{" + Join(MemberTexts(SortByKey(fields)), ", ") + "}"
  {
  }

  /** An array is dumped as its items' texts, between brackets. */
  lemma ArrayDumps(items: seq<Json>)
    ensures Dumps(JArray(items)) == "[" + Join(seq(|items|, k requires 0 <= k < |items| => Dumps(items[k])), ", ") + "]"
  {
  }

  /** Two dicts holding the same members, inserted in any order, dump to the
      same text. */
  lemma DumpsIgnoresInsertionOrder(p: seq<Member>, q: seq<Member>)
    requires DistinctKeys(p) && DistinctKeys(q)
    requires multiset(p) == multiset(q)
    ensures Dumps(JObject(p)) == Dumps(JObject(q))
  {
    SortByKeyIgnoresInsertionOrder(p, q);
  }

  // ---------------------------------------------------------------------------
  // Key order at every depth

  function Keys(fs: seq<Member>): set<string> {
    set m | m in fs :: m.0
  }

  /** `a` and `b` are the same JSON value up to the order of the members of
      their dicts, at every depth: equal scalars, lists related item by item,
      and dicts with the same keys whose values under each key are related. */
  predicate SameUpToOrder(a: Json, b: Json)
    decreases a
  {
    match a
    case JArray(xs) =>
      b.JArray? && |xs| == |b.items| &&
      forall i :: 0 <= i < |xs| ==> SameUpToOrder(xs[i], b.items[i])
    case JObject(p) =>
      b.JObject? && DistinctKeys(p) && DistinctKeys(b.fields) && Keys(p) == Keys(b.fields) &&
      forall i, j :: 0 <= i < |p| && 0 <= j < |b.fields| && p[i].0 == b.fields[j].0 ==>
        SameUpToOrder(p[i].1, b.fields[j].1)
    case _ => a == b
  }

  lemma KeysOfSorted(fs: seq<Member>)
    ensures Keys(SortByKey(fs)) == Keys(fs)
  {
    var r := SortByKey(fs);
    forall k | k in Keys(r) ensures k in Keys(fs) {
      var m :| m in r && m.0 == k;
      assert m in multiset(fs);
    }
    forall k | k in Keys(fs) ensures k in Keys(r) {
      var m :| m in fs && m.0 == k;
      assert m in multiset(r);
    }
  }

  /** Two key-sorted member lists with the same keys list those keys in the
      same positions. */
  lemma {:induction false} SortedKeysUnique(a: seq<Member>, b: seq<Member>)
    requires SortedByKey(a) && SortedByKey(b)
    requires Keys(a) == Keys(b)
    ensures |a| == |b| && forall k :: 0 <= k < |a| ==> a[k].0 == b[k].0
  {
    KeysOfNonEmpty(b);
    if a != [] {
      assert a[0] in a && a[0].0 in Keys(b);
      assert b != [] && b[0] in b && b[0].0 in Keys(a);
      if a[0].0 != b[0].0 {
        // each head key would have to be below the other
        var i :| 0 <= i < |b| && b[i].0 == a[0].0;
        var j :| 0 <= j < |a| && a[j].0 == b[0].0;
        KeyLessAsymmetric(a[0].0, b[0].0);
        assert false;
      }
      TailKeys(a);
      TailKeys(b);
      SortedKeysUnique(a[1..], b[1..]);
      forall k | 0 <= k < |a| ensures a[k].0 == b[k].0 {
        if k > 0 {
          assert a[k] == a[1..][k - 1] && b[k] == b[1..][k - 1];
        }
      }
    }
  }

  lemma KeysOfNonEmpty(fs: seq<Member>)
    ensures fs != [] ==> Keys(fs) != {}
  {
    if fs != [] {
      assert fs[0].0 in Keys(fs);
    }
  }

  /** In a key-sorted list the head's key occurs only at the head. */
  lemma TailKeys(a: seq<Member>)
    requires SortedByKey(a) && a != []
    ensures SortedByKey(a[1..])
    ensures Keys(a[1..]) == Keys(a) - {a[0].0}
  {
    forall k | k in Keys(a) - {a[0].0} ensures k in Keys(a[1..]) {
      var m :| m in a && m.0 == k;
      var i :| 0 <= i < |a| && a[i] == m;
      assert a[1..][i - 1] == m;
    }
    forall k | k in Keys(a[1..]) ensures k in Keys(a) - {a[0].0} {
      var m :| m in a[1..] && m.0 == k;
      var i :| 0 <= i < |a[1..]| && a[1..][i] == m;
      assert a[i + 1] == m;
      KeyLessIrreflexive(a[0].0);
    }
  }

  /** `sort_keys=True` sorts the dicts at every depth, so values that differ
      only in the order of dict members, anywhere, dump to the same text. */
  lemma {:induction false} DumpsIgnoresNestedOrder(a: Json, b: Json)
    requires SameUpToOrder(a, b)
    ensures Dumps(a) == Dumps(b)
    decreases a, 1
  {
    match a
    case JArray(_) => ArraysIgnoreNestedOrder(a, b);
    case JObject(_) => ObjectsIgnoreNestedOrder(a, b);
    case _ =>
  }

  lemma {:induction false} ArraysIgnoreNestedOrder(a: Json, b: Json)
    requires a.JArray? && SameUpToOrder(a, b)
    ensures Dumps(a) == Dumps(b)
    decreases a, 0
  {
    var xs, ys := a.items, b.items;
    var px := seq(|xs|, k requires 0 <= k < |xs| => Dumps(xs[k]));
    var py := seq(|ys|, k requires 0 <= k < |ys| => Dumps(ys[k]));
    forall k | 0 <= k < |xs| ensures px[k] == py[k] {
      DumpsIgnoresNestedOrder(xs[k], ys[k]);
    }
    assert px == py;
    ArrayDumps(xs);
    ArrayDumps(ys);
  }

  lemma {:induction false} ObjectsIgnoreNestedOrder(a: Json, b: Json)
    requires a.JObject? && SameUpToOrder(a, b)
    ensures Dumps(a) == Dumps(b)
    decreases a, 0
  {
    var p, q := a.fields, b.fields;
    SortedAligned(p, q);
    var tp, tq := MemberTexts(SortByKey(p)), MemberTexts(SortByKey(q));
    forall k | 0 <= k < |tp| ensures tp[k] == tq[k] {
      var i := SortedMemberSource(p, k);
      var j := SortedMemberSource(q, k);
      DumpsIgnoresNestedOrder(p[i].1, q[j].1);
    }
    assert tp == tq;
    ObjectDumps(p);
    ObjectDumps(q);
  }

  /** Sorting two dicts with the same keys puts equal keys in equal positions. */
  lemma SortedAligned(p: seq<Member>, q: seq<Member>)
    requires DistinctKeys(p) && DistinctKeys(q) && Keys(p) == Keys(q)
    ensures |SortByKey(p)| == |SortByKey(q)|
    ensures forall k :: 0 <= k < |SortByKey(p)| ==> SortByKey(p)[k].0 == SortByKey(q)[k].0
  {
    SortByKeySorted(p);
    SortByKeySorted(q);
    KeysOfSorted(p);
    KeysOfSorted(q);
    SortedKeysUnique(SortByKey(p), SortByKey(q));
  }

  /** Each sorted member is a member of the dict. */
  lemma SortedMemberSource(p: seq<Member>, k: int) returns (i: nat)
    requires 0 <= k < |SortByKey(p)|
    ensures i < |p| && p[i] == SortByKey(p)[k]
  {
    assert SortByKey(p)[k] in multiset(p);
    i :| i < |p| && p[i] == SortByKey(p)[k];
  }

  /** Every dict, at every depth, has each key once: what a Python value
      gives. */
  predicate WellFormed(j: Json)
    decreases j
  {
    match j
    case JArray(xs) => forall i :: 0 <= i < |xs| ==> WellFormed(xs[i])
    case JObject(p) => DistinctKeys(p) && forall i :: 0 <= i < |p| ==> WellFormed(p[i].1)
    case _ => true
  }

  lemma {:induction false} SameUpToOrderReflexive(j: Json)
    requires WellFormed(j)
    ensures SameUpToOrder(j, j)
    decreases j
  {
    match j
    case JArray(xs) =>
      forall i | 0 <= i < |xs| ensures SameUpToOrder(xs[i], xs[i]) {
        SameUpToOrderReflexive(xs[i]);
      }
    case JObject(p) =>
      forall i, k | 0 <= i < |p| && 0 <= k < |p| && p[i].0 == p[k].0 ensures SameUpToOrder(p[i].1, p[k].1) {
        assert i == k;
        SameUpToOrderReflexive(p[i].1);
      }
    case _ =>
  }

  /** A dict whose members are those of another dict, inserted in another
      order, is the same value up to order. */
  lemma ObjectPermutedSame(p: seq<Member>, q: seq<Member>)
    requires DistinctKeys(p) && DistinctKeys(q) && multiset(p) == multiset(q)
    requires forall i :: 0 <= i < |p| ==> WellFormed(p[i].1)
    ensures SameUpToOrder(JObject(p), JObject(q))
  {
    forall k | k in Keys(p) ensures k in Keys(q) {
      var m :| m in p && m.0 == k;
      assert m in multiset(q);
    }
    forall k | k in Keys(q) ensures k in Keys(p) {
      var m :| m in q && m.0 == k;
      assert m in multiset(p);
    }
    forall i, j | 0 <= i < |p| && 0 <= j < |q| && p[i].0 == q[j].0 ensures SameUpToOrder(p[i].1, q[j].1) {
      assert p[i] in multiset(q);
      var j' :| 0 <= j' < |q| && q[j'] == p[i];
      assert j' == j;
      SameUpToOrderReflexive(p[i].1);
    }
  }

  /** Two dicts with the same keys in the same positions, whose values are
      pairwise the same up to order, are the same up to order. */
  lemma ObjectsPointwiseSame(p: seq<Member>, q: seq<Member>)
    requires |p| == |q| && DistinctKeys(p)
    requires forall i :: 0 <= i < |p| ==> p[i].0 == q[i].0 && SameUpToOrder(p[i].1, q[i].1)
    ensures SameUpToOrder(JObject(p), JObject(q))
  {
    forall k | k in Keys(p) ensures k in Keys(q) {
      var m :| m in p && m.0 == k;
      var i :| 0 <= i < |p| && p[i] == m;
      assert q[i] in q;
    }
    forall k | k in Keys(q) ensures k in Keys(p) {
      var m :| m in q && m.0 == k;
      var i :| 0 <= i < |q| && q[i] == m;
      assert p[i] in p;
    }
  }

  /** A three-member dict written in the reverse order. */
  lemma ReversedThreeSame(a: Member, b: Member, c: Member)
    requires a.0 != b.0 && a.0 != c.0 && b.0 != c.0
    requires WellFormed(a.1) && WellFormed(b.1) && WellFormed(c.1)
    ensures SameUpToOrder(JObject([c, b, a]), JObject([a, b, c]))
  {
    var p, q := [c, b, a], [a, b, c];
    assert multiset(p) == multiset(q);
    ObjectPermutedSame(p, q);
  }
}
