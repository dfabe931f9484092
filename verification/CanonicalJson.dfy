/** Canonical JSON: `canonicalize_value` and the compact serialisation of its result. */
module CanonicalJson {
  import opened StringOrder

  /** A JSON value. Objects keep their members in insertion order; a number is its serialised text. */
  datatype Json =
    | Null
    | Boolean(value: bool)
    | Number(text: string)
    | Str(chars: string)
    | Array(items: seq<Json>)
    | Object(members: seq<Member>)

  datatype Member = Member(key: string, value: Json)

  predicate UniqueKeys(members: seq<Member>) {
    forall i, j :: 0 <= i < j < |members| ==> members[i].key != members[j].key
  }

  predicate NumberChar(c: char) {
    '0' <= c <= '9' || c in {'-', '+', '.', 'e', 'E'}
  }

  predicate NumberText(text: string) {
    text != "" && (text[0] == '-' || '0' <= text[0] <= '9') && forall i :: 0 <= i < |text| ==> NumberChar(text[i])
  }

  /** The values a JSON map type can hold: unique keys at every depth and numbers in number syntax. */
  predicate WellFormed(v: Json) {
    match v
    case Number(text) => NumberText(text)
    case Array(items) => forall i :: 0 <= i < |items| ==> WellFormed(items[i])
    case Object(members) => UniqueKeys(members) && forall i :: 0 <= i < |members| ==> WellFormed(members[i].value)
    case _ => true
  }

  function Insert(member: Member, sorted: seq<Member>): seq<Member> {
    if sorted == [] || !Less(sorted[0].key, member.key) then [member] + sorted
    else [sorted[0]] + Insert(member, sorted[1..])
  }

  function SortMembers(members: seq<Member>): seq<Member> {
    if members == [] then [] else Insert(members[0], SortMembers(members[1..]))
  }

  /** `canonicalize_value`: members in key order, at every depth. */
  function Canonicalize(v: Json): Json
    decreases v, 1
  {
    match v
    case Array(items) => Array(CanonicalItems(items))
    case Object(members) => Object(SortMembers(CanonicalMembers(members)))
    case _ => v
  }

  function CanonicalItems(items: seq<Json>): (out: seq<Json>)
    ensures |out| == |items|
    ensures forall i :: 0 <= i < |items| ==> out[i] == Canonicalize(items[i])
    decreases items, 0
  {
    if items == [] then [] else [Canonicalize(items[0])] + CanonicalItems(items[1..])
  }

  function CanonicalMembers(members: seq<Member>): (out: seq<Member>)
    ensures |out| == |members|
    ensures forall i :: 0 <= i < |members| ==> out[i] == Member(members[i].key, Canonicalize(members[i].value))
    decreases members, 0
  {
    if members == [] then []
    else [Member(members[0].key, Canonicalize(members[0].value))] + CanonicalMembers(members[1..])
  }

  /** The values differ only in the order of object members, at any depth. */
  predicate SameUpToOrder(v: Json, w: Json) {
    match (v, w)
    case (Array(xs), Array(ys)) => |xs| == |ys| && forall i :: 0 <= i < |xs| ==> SameUpToOrder(xs[i], ys[i])
    case (Object(ms), Object(ns)) =>
      && (forall i :: 0 <= i < |ms| ==> HasKey(ns, ms[i].key))
      && (forall j :: 0 <= j < |ns| ==> HasKey(ms, ns[j].key))
      && forall i, j :: 0 <= i < |ms| && 0 <= j < |ns| && ms[i].key == ns[j].key ==>
        SameUpToOrder(ms[i].value, ns[j].value)
    case _ => v == w
  }

  predicate HasKey(members: seq<Member>, key: string) {
    exists i :: 0 <= i < |members| && members[i].key == key
  }

  predicate StrictlySorted(members: seq<Member>) {
    forall i, j :: 0 <= i < j < |members| ==> Less(members[i].key, members[j].key)
  }

  lemma {:induction false} InsertKeeps(member: Member, sorted: seq<Member>)
    requires StrictlySorted(sorted) && !HasKey(sorted, member.key)
    ensures StrictlySorted(Insert(member, sorted))
    ensures forall m :: m in Insert(member, sorted) <==> m == member || m in sorted
  {
    if sorted != [] {
      LessTotal(sorted[0].key, member.key);
      assert sorted == [sorted[0]] + sorted[1..];
      if Less(sorted[0].key, member.key) {
        InsertKeeps(member, sorted[1..]);
        var tail := Insert(member, sorted[1..]);
        forall j | 0 <= j < |tail|
          ensures Less(sorted[0].key, tail[j].key)
        {
          assert tail[j] in tail;
          if tail[j] != member {
            var k :| 0 <= k < |sorted[1..]| && sorted[1..][k] == tail[j];
            assert sorted[1..][k] == sorted[k + 1];
          }
        }
      } else {
        forall j | 0 <= j < |sorted|
          ensures Less(member.key, sorted[j].key)
        {
          if j > 0 { LessTransitive(member.key, sorted[0].key, sorted[j].key); }
        }
      }
    }
  }

  /** Sorting members with unique keys keeps exactly the members, in strict key order. */
  lemma {:induction false} SortKeeps(members: seq<Member>)
    requires UniqueKeys(members)
    ensures StrictlySorted(SortMembers(members))
    ensures forall m :: m in SortMembers(members) <==> m in members
  {
    if members != [] {
      var rest := members[1..];
      SortKeeps(rest);
      var sorted := SortMembers(rest);
      forall i | 0 <= i < |sorted|
        ensures sorted[i].key != members[0].key
      {
        assert sorted[i] in rest;
        var k :| 0 <= k < |rest| && rest[k] == sorted[i];
        assert rest[k] == members[k + 1];
      }
      InsertKeeps(members[0], sorted);
      assert members == [members[0]] + rest;
    }
  }

  /** A strictly sorted sequence is determined by its elements. */
  lemma {:induction false} SortedUnique(a: seq<Member>, b: seq<Member>)
    requires StrictlySorted(a) && StrictlySorted(b)
    requires forall m :: m in a <==> m in b
    ensures a == b
  {
    if |b| == 0 {
      assert forall i :: 0 <= i < |a| ==> a[i] in a;
    } else {
      assert b[0] in a;
      assert a[0] in b;
      var i :| 0 <= i < |b| && b[i] == a[0];
      var j :| 0 <= j < |a| && a[j] == b[0];
      LessTotal(a[0].key, b[0].key);
      assert a[0] == b[0];
      forall m ensures m in a[1..] <==> m in b[1..] {
        TailMembers(a, m);
        TailMembers(b, m);
      }
      SortedUnique(a[1..], b[1..]);
      assert a == [a[0]] + a[1..] && b == [b[0]] + b[1..];
    }
  }

  lemma TailMembers(a: seq<Member>, m: Member)
    requires StrictlySorted(a) && a != []
    ensures m in a[1..] <==> m in a && m != a[0]
  {
    assert a == [a[0]] + a[1..];
    if m in a[1..] {
      var i :| 0 <= i < |a[1..]| && a[1..][i] == m;
      assert Less(a[0].key, a[i + 1].key);
      LessTotal(a[0].key, a[0].key);
    }
  }

  lemma SameMembersSortAlike(ms: seq<Member>, ns: seq<Member>)
    requires UniqueKeys(ms) && UniqueKeys(ns)
    requires forall i :: 0 <= i < |ms| ==> HasKey(ns, ms[i].key)
    requires forall j :: 0 <= j < |ns| ==> HasKey(ms, ns[j].key)
    requires forall i, j :: 0 <= i < |ms| && 0 <= j < |ns| && ms[i].key == ns[j].key ==> ms[i] == ns[j]
    ensures SortMembers(ms) == SortMembers(ns)
  {
    forall m ensures m in ms <==> m in ns {
      if m in ms {
        var i :| 0 <= i < |ms| && ms[i] == m;
        var j :| 0 <= j < |ns| && ns[j].key == ms[i].key;
        assert ns[j] == m;
      }
      if m in ns {
        var j :| 0 <= j < |ns| && ns[j] == m;
        var i :| 0 <= i < |ms| && ms[i].key == ns[j].key;
        assert ms[i] == m;
      }
    }
    SortKeeps(ms);
    SortKeeps(ns);
    SortedUnique(SortMembers(ms), SortMembers(ns));
  }

  lemma CanonicalKeys(members: seq<Member>)
    ensures forall key :: HasKey(CanonicalMembers(members), key) <==> HasKey(members, key)
  {
    var canonical := CanonicalMembers(members);
    forall key ensures HasKey(canonical, key) <==> HasKey(members, key) {
      if HasKey(members, key) {
        var i :| 0 <= i < |members| && members[i].key == key;
        assert canonical[i].key == key;
      }
    }
  }

  /** Values equal up to member order have the same canonical form. */
  lemma {:induction false} SameHasOneCanonicalForm(v: Json, w: Json)
    requires WellFormed(v) && WellFormed(w) && SameUpToOrder(v, w)
    ensures Canonicalize(v) == Canonicalize(w)
    decreases v
  {
    match v
    case Array(xs) =>
      forall i | 0 <= i < |xs| ensures Canonicalize(xs[i]) == Canonicalize(w.items[i]) {
        SameHasOneCanonicalForm(xs[i], w.items[i]);
      }
      assert CanonicalItems(xs) == CanonicalItems(w.items);
    case Object(ms) =>
      var ns := w.members;
      forall i, j | 0 <= i < |ms| && 0 <= j < |ns| && ms[i].key == ns[j].key
        ensures Canonicalize(ms[i].value) == Canonicalize(ns[j].value)
      {
        SameHasOneCanonicalForm(ms[i].value, ns[j].value);
      }
      SameMembersCanonical(ms, ns);
    case _ =>
  }

  lemma SameMembersCanonical(ms: seq<Member>, ns: seq<Member>)
    requires UniqueKeys(ms) && UniqueKeys(ns)
    requires forall i :: 0 <= i < |ms| ==> HasKey(ns, ms[i].key)
    requires forall j :: 0 <= j < |ns| ==> HasKey(ms, ns[j].key)
    requires forall i, j :: 0 <= i < |ms| && 0 <= j < |ns| && ms[i].key == ns[j].key ==>
      Canonicalize(ms[i].value) == Canonicalize(ns[j].value)
    ensures SortMembers(CanonicalMembers(ms)) == SortMembers(CanonicalMembers(ns))
  {
    CanonicalKeys(ms);
    CanonicalKeys(ns);
    SameMembersSortAlike(CanonicalMembers(ms), CanonicalMembers(ns));
  }

  /** Members that sort alike are the same members, key by key. */
  lemma SameMembersMatch(ms: seq<Member>, ns: seq<Member>)
    requires UniqueKeys(ms) && UniqueKeys(ns) && SortMembers(ms) == SortMembers(ns)
    ensures forall i :: 0 <= i < |ms| ==> ms[i] in ns
    ensures forall j :: 0 <= j < |ns| ==> ns[j] in ms
    ensures forall i, j :: 0 <= i < |ms| && 0 <= j < |ns| && ms[i].key == ns[j].key ==> ms[i] == ns[j]
  {
    SortKeeps(ms);
    SortKeeps(ns);
    assert forall i :: 0 <= i < |ms| ==> ms[i] in ms;
    assert forall j :: 0 <= j < |ns| ==> ns[j] in ns;
  }

  lemma KeysMatch(ms: seq<Member>, ns: seq<Member>, cm: seq<Member>, cn: seq<Member>)
    requires |cm| == |ms| && |cn| == |ns| && forall i :: 0 <= i < |cm| ==> cm[i] in cn
    requires forall i :: 0 <= i < |ms| ==> cm[i].key == ms[i].key
    requires forall j :: 0 <= j < |ns| ==> cn[j].key == ns[j].key
    ensures forall i :: 0 <= i < |ms| ==> HasKey(ns, ms[i].key)
  {
    forall i | 0 <= i < |ms| ensures HasKey(ns, ms[i].key) {
      var j :| 0 <= j < |cn| && cn[j] == cm[i];
      assert ns[j].key == ms[i].key;
    }
  }

  /** Values with the same canonical form are equal up to member order. */
  lemma {:induction false} CanonicalFormDetermines(v: Json, w: Json)
    requires WellFormed(v) && WellFormed(w) && Canonicalize(v) == Canonicalize(w)
    ensures SameUpToOrder(v, w)
    decreases v
  {
    match v
    case Array(xs) =>
      assert w.Array? && |xs| == |w.items|;
      forall i | 0 <= i < |xs| ensures SameUpToOrder(xs[i], w.items[i]) {
        assert CanonicalItems(xs)[i] == CanonicalItems(w.items)[i];
        CanonicalFormDetermines(xs[i], w.items[i]);
      }
    case Object(ms) =>
      assert w.Object?;
      var ns := w.members;
      var cm, cn := CanonicalMembers(ms), CanonicalMembers(ns);
      SameMembersMatch(cm, cn);
      KeysMatch(ms, ns, cm, cn);
      KeysMatch(ns, ms, cn, cm);
      forall i, j | 0 <= i < |ms| && 0 <= j < |ns| && ms[i].key == ns[j].key
        ensures SameUpToOrder(ms[i].value, ns[j].value)
      {
        assert cm[i] == cn[j];
        CanonicalFormDetermines(ms[i].value, ns[j].value);
      }
    case _ =>
  }

  lemma {:induction false} CanonicalizeKeepsValue(v: Json)
    requires WellFormed(v)
    ensures WellFormed(Canonicalize(v)) && SameUpToOrder(v, Canonicalize(v))
    decreases v
  {
    match v
    case Array(xs) =>
      forall i | 0 <= i < |xs| ensures WellFormed(Canonicalize(xs[i])) && SameUpToOrder(xs[i], Canonicalize(xs[i])) {
        CanonicalizeKeepsValue(xs[i]);
      }
    case Object(ms) =>
      var cm := CanonicalMembers(ms);
      var sorted := SortMembers(cm);
      SortKeeps(cm);
      forall i | 0 <= i < |ms|
        ensures WellFormed(cm[i].value) && SameUpToOrder(ms[i].value, cm[i].value) && HasKey(sorted, ms[i].key)
      {
        CanonicalizeKeepsValue(ms[i].value);
        assert cm[i] in sorted;
      }
      forall j | 0 <= j < |sorted|
        ensures exists i :: 0 <= i < |ms| && cm[i] == sorted[j]
      {
        assert sorted[j] in cm;
      }
      forall i, j | 0 <= i < |sorted| && 0 <= j < |sorted| && i < j ensures sorted[i].key != sorted[j].key {
        LessTotal(sorted[i].key, sorted[j].key);
      }
    case _ =>
  }

  /** Canonicalising twice changes nothing more. */
  lemma CanonicalizeIdempotent(v: Json)
    requires WellFormed(v)
    ensures Canonicalize(Canonicalize(v)) == Canonicalize(v)
  {
    CanonicalizeKeepsValue(v);
    SameHasOneCanonicalForm(v, Canonicalize(v));
  }

  function HexDigit(n: int): char
    requires 0 <= n < 16
  {
    if n < 10 then '0' + n as char else 'a' + (n - 10) as char
  }

  /** String escapes: the two-character forms, `\u00xx` for the other control characters, everything else raw. */
  function Escape(c: char): string {
    if c == '"' then "\\\""
    else if c == '\\' then "\\\\"
    else if c as int == 8 then "\\b"
    else if c as int == 9 then "\\t"
    else if c as int == 10 then "\\n"
    else if c as int == 12 then "\\f"
    else if c as int == 13 then "\\r"
    else if c as int < 32 then "\\u00" + [HexDigit(c as int / 16), HexDigit(c as int % 16)]
    else [c]
  }

  function EscapeAll(s: string): string {
    if s == "" then "" else Escape(s[0]) + EscapeAll(s[1..])
  }

  function Quote(s: string): string {
    "\"" + EscapeAll(s) + "\""
  }

  /** Compact serialisation, without any white space. */
  function Serialize(v: Json): string
    decreases v, 1
  {
    match v
    case Null => "null"
    case Boolean(value) => if value then "true" else "false"
    case Number(text) => text
    case Str(chars) => Quote(chars)
    case Array(items) => "[" + SerializeItems(items) + "]"
    case Object(members) => "{" + SerializeMembers(members) + "}"
  }

  function SerializeItems(items: seq<Json>): string
    decreases items, 0
  {
    if items == [] then ""
    else if |items| == 1 then Serialize(items[0])
    else Serialize(items[0]) + "," + SerializeItems(items[1..])
  }

  function SerializeMembers(members: seq<Member>): string
    decreases members, 0
  {
    if members == [] then ""
    else if |members| == 1 then Quote(members[0].key) + ":" + Serialize(members[0].value)
    else Quote(members[0].key) + ":" + Serialize(members[0].value) + "," + SerializeMembers(members[1..])
  }

  /** What may follow a value: nothing, or a character that cannot continue a number. */
  predicate Stops(s: string) {
    s == "" || !NumberChar(s[0])
  }

  lemma Cancel(prefix: string, s: string, t: string)
    requires prefix + s == prefix + t
    ensures s == t
  {
    assert s == (prefix + s)[|prefix|..] && t == (prefix + t)[|prefix|..];
  }

  lemma CancelBracket(open: string, a: string, b: string, close: string, s: string, t: string)
    requires open + a + close + s == open + b + close + t
    ensures a + (close + s) == b + (close + t)
  {
    assert open + a + close + s == open + (a + (close + s));
    assert open + b + close + t == open + (b + (close + t));
    Cancel(open, a + (close + s), b + (close + t));
  }

  lemma EscapePrefix(c: char, d: char, s: string, t: string)
    requires Escape(c) + s == Escape(d) + t
    ensures c == d && s == t
  {
    var a, b := Escape(c), Escape(d);
    assert (a + s)[0] == a[0] && (b + t)[0] == b[0];
    if a[0] == '\\' {
      assert (a + s)[1] == a[1] && (b + t)[1] == b[1];
      if a[1] == 'u' {
        assert (a + s)[4] == a[4] && (b + t)[4] == b[4] && (a + s)[5] == a[5] && (b + t)[5] == b[5];
      }
    }
    assert c == d;
    Cancel(a, s, t);
  }

  /** A quoted string ends where it ends: nothing inside it looks like the closing quote. */
  lemma {:induction false} StringPrefix(x: string, y: string, s: string, t: string)
    requires EscapeAll(x) + "\"" + s == EscapeAll(y) + "\"" + t
    ensures x == y && s == t
  {
    StringStart(x, s);
    StringStart(y, t);
    if x == "" {
      Cancel("\"", s, t);
    } else {
      var a, b := EscapeAll(x[1..]) + "\"" + s, EscapeAll(y[1..]) + "\"" + t;
      EscapePrefix(x[0], y[0], a, b);
      StringPrefix(x[1..], y[1..], s, t);
      assert x == [x[0]] + x[1..] && y == [y[0]] + y[1..];
    }
  }

  lemma StringStart(x: string, s: string)
    ensures x == "" ==> EscapeAll(x) + "\"" + s == "\"" + s
    ensures x != "" ==> EscapeAll(x) + "\"" + s == Escape(x[0]) + (EscapeAll(x[1..]) + "\"" + s)
    ensures (EscapeAll(x) + "\"" + s)[0] == '"' <==> x == ""
  {
  }

  lemma QuotePrefix(x: string, y: string, s: string, t: string)
    requires Quote(x) + s == Quote(y) + t
    ensures x == y && s == t
  {
    CancelBracket("\"", EscapeAll(x), EscapeAll(y), "\"", s, t);
    assert EscapeAll(x) + "\"" + s == EscapeAll(x) + ("\"" + s) && EscapeAll(y) + "\"" + t == EscapeAll(y) + ("\"" + t);
    StringPrefix(x, y, s, t);
  }

  /** Length of the longest prefix of number characters. */
  function NumberLength(s: string): nat {
    if Stops(s) then 0 else 1 + NumberLength(s[1..])
  }

  lemma {:induction false} NumberLengthIs(a: string, s: string)
    requires Stops(s) && forall i :: 0 <= i < |a| ==> NumberChar(a[i])
    ensures NumberLength(a + s) == |a|
  {
    if a == "" {
      assert a + s == s;
    } else {
      NumberLengthIs(a[1..], s);
      assert (a + s)[1..] == a[1..] + s;
    }
  }

  lemma NumberPrefix(a: string, b: string, s: string, t: string)
    requires NumberText(a) && NumberText(b) && a + s == b + t && Stops(s) && Stops(t)
    ensures a == b && s == t
  {
    NumberLengthIs(a, s);
    NumberLengthIs(b, t);
    assert a == (a + s)[..|a|] && b == (b + t)[..|a|];
    Cancel(a, s, t);
  }

  /** The kind of value is visible in its first character. */
  function Kind(c: char): int {
    if c == 'n' then 0 else if c == 't' || c == 'f' then 1 else if NumberChar(c) then 2
    else if c == '"' then 3 else if c == '[' then 4 else if c == '{' then 5 else 6
  }

  function KindOf(v: Json): int {
    match v
    case Null => 0
    case Boolean(_) => 1
    case Number(_) => 2
    case Str(_) => 3
    case Array(_) => 4
    case Object(_) => 5
  }

  lemma FirstChar(v: Json)
    requires WellFormed(v)
    ensures Serialize(v) != "" && Kind(Serialize(v)[0]) == KindOf(v)
  {
  }

  lemma ScalarPrefix(v: Json, w: Json, s: string, t: string)
    requires WellFormed(v) && WellFormed(w) && Stops(s) && Stops(t) && KindOf(v) == KindOf(w) < 4
    requires Serialize(v) + s == Serialize(w) + t
    ensures v == w && s == t
  {
    if v.Number? {
      NumberPrefix(v.text, w.text, s, t);
    } else if v.Str? {
      QuotePrefix(v.chars, w.chars, s, t);
    } else {
      assert (Serialize(v) + s)[0] == Serialize(v)[0] && (Serialize(w) + t)[0] == Serialize(w)[0];
      Cancel(Serialize(v), s, t);
    }
  }

  /** Serialisation is unambiguous: a value is determined by its text, whatever admissible text follows. */
  lemma {:induction false} SerializePrefix(v: Json, w: Json, s: string, t: string)
    requires WellFormed(v) && WellFormed(w) && Stops(s) && Stops(t)
    requires Serialize(v) + s == Serialize(w) + t
    ensures v == w && s == t
    decreases v, 1
  {
    SameKind(v, w, s, t);
    match v
    case Array(items) =>
      CancelBracket("[", SerializeItems(items), SerializeItems(w.items), "]", s, t);
      ItemsPrefix(items, w.items, "]" + s, "]" + t);
      Cancel("]", s, t);
    case Object(members) =>
      CancelBracket("{", SerializeMembers(members), SerializeMembers(w.members), "}", s, t);
      MembersPrefix(members, w.members, "}" + s, "}" + t);
      Cancel("}", s, t);
    case _ => ScalarPrefix(v, w, s, t);
  }

  lemma SameKind(v: Json, w: Json, s: string, t: string)
    requires WellFormed(v) && WellFormed(w) && Serialize(v) + s == Serialize(w) + t
    ensures KindOf(v) == KindOf(w)
  {
    FirstChar(v);
    FirstChar(w);
    assert (Serialize(v) + s)[0] == Serialize(v)[0] && (Serialize(w) + t)[0] == Serialize(w)[0];
  }

  /** The text after the first item: more items after a comma, or what follows the list. */
  function AfterItem(items: seq<Json>, s: string): string
    requires items != []
  {
    if |items| == 1 then s else "," + (SerializeItems(items[1..]) + s)
  }

  lemma {:induction false} ItemsPrefix(xs: seq<Json>, ys: seq<Json>, s: string, t: string)
    requires forall i :: 0 <= i < |xs| ==> WellFormed(xs[i])
    requires forall i :: 0 <= i < |ys| ==> WellFormed(ys[i])
    requires s != "" && t != "" && s[0] == t[0] == ']'
    requires SerializeItems(xs) + s == SerializeItems(ys) + t
    ensures xs == ys && s == t
    decreases xs, 1
  {
    if xs == [] || ys == [] {
      ItemsStart(xs, s);
      ItemsStart(ys, t);
    } else {
      FirstItemsAgree(xs, ys, s, t);
      if |xs| > 1 {
        ItemsPrefix(xs[1..], ys[1..], s, t);
      }
      assert xs == [xs[0]] + xs[1..] && ys == [ys[0]] + ys[1..];
    }
  }

  /** The first items are the same, and both lists end behind them or go on alike. */
  lemma {:induction false} FirstItemsAgree(xs: seq<Json>, ys: seq<Json>, s: string, t: string)
    requires xs != [] && ys != [] && WellFormed(xs[0]) && WellFormed(ys[0])
    requires s != "" && t != "" && s[0] == t[0] == ']'
    requires SerializeItems(xs) + s == SerializeItems(ys) + t
    ensures xs[0] == ys[0] && (|xs| == 1 <==> |ys| == 1) && (|xs| == 1 ==> s == t)
    ensures |xs| > 1 ==> SerializeItems(xs[1..]) + s == SerializeItems(ys[1..]) + t
    decreases xs, 0
  {
    ItemsStart(xs, s);
    ItemsStart(ys, t);
    SerializePrefix(xs[0], ys[0], AfterItem(xs, s), AfterItem(ys, t));
    if |xs| > 1 {
      Cancel(",", SerializeItems(xs[1..]) + s, SerializeItems(ys[1..]) + t);
    }
  }

  lemma ItemsStart(items: seq<Json>, s: string)
    requires s != "" && s[0] == ']' && (items != [] ==> WellFormed(items[0]))
    ensures items == [] ==> SerializeItems(items) + s == s
    ensures items != [] ==> SerializeItems(items) + s == Serialize(items[0]) + AfterItem(items, s)
    ensures (SerializeItems(items) + s)[0] == ']' <==> items == []
  {
    if items != [] {
      FirstChar(items[0]);
      ItemsSplit(items, s);
    }
  }

  lemma ItemsSplit(items: seq<Json>, s: string)
    requires items != []
    ensures SerializeItems(items) + s == Serialize(items[0]) + AfterItem(items, s)
  {
    if |items| > 1 {
      Between(Serialize(items[0]), ",", SerializeItems(items[1..]), s);
    }
  }

  lemma Between(a: string, b: string, c: string, d: string)
    ensures a + b + c + d == a + (b + (c + d))
  {
  }

  function AfterMember(members: seq<Member>, s: string): string
    requires members != []
  {
    if |members| == 1 then s else "," + (SerializeMembers(members[1..]) + s)
  }

  lemma {:induction false} MembersPrefix(ms: seq<Member>, ns: seq<Member>, s: string, t: string)
    requires forall i :: 0 <= i < |ms| ==> WellFormed(ms[i].value)
    requires forall i :: 0 <= i < |ns| ==> WellFormed(ns[i].value)
    requires s != "" && t != "" && s[0] == t[0] == '}'
    requires SerializeMembers(ms) + s == SerializeMembers(ns) + t
    ensures ms == ns && s == t
    decreases ms, 1
  {
    if ms == [] || ns == [] {
      MembersStart(ms, s);
      MembersStart(ns, t);
    } else {
      FirstMembersAgree(ms, ns, s, t);
      if |ms| > 1 {
        MembersPrefix(ms[1..], ns[1..], s, t);
      }
      assert ms == [ms[0]] + ms[1..] && ns == [ns[0]] + ns[1..];
    }
  }

  /** The first members are the same, and both lists end behind them or go on alike. */
  lemma {:induction false} FirstMembersAgree(ms: seq<Member>, ns: seq<Member>, s: string, t: string)
    requires ms != [] && ns != [] && WellFormed(ms[0].value) && WellFormed(ns[0].value)
    requires s != "" && t != "" && s[0] == t[0] == '}'
    requires SerializeMembers(ms) + s == SerializeMembers(ns) + t
    ensures ms[0] == ns[0] && (|ms| == 1 <==> |ns| == 1) && (|ms| == 1 ==> s == t)
    ensures |ms| > 1 ==> SerializeMembers(ms[1..]) + s == SerializeMembers(ns[1..]) + t
    decreases ms, 0
  {
    MembersStart(ms, s);
    MembersStart(ns, t);
    MemberPrefix(ms[0], ns[0], AfterMember(ms, s), AfterMember(ns, t));
    AfterMembersAgree(ms, ns, s, t);
  }

  /** Behind the first member both lists end, or both go on. */
  lemma AfterMembersAgree(ms: seq<Member>, ns: seq<Member>, s: string, t: string)
    requires ms != [] && ns != [] && s != "" && t != "" && s[0] == t[0] == '}'
    requires AfterMember(ms, s) == AfterMember(ns, t)
    ensures |ms| == 1 <==> |ns| == 1
    ensures |ms| == 1 ==> s == t
    ensures |ms| > 1 ==> SerializeMembers(ms[1..]) + s == SerializeMembers(ns[1..]) + t
  {
    assert AfterMember(ms, s)[0] == '}' <==> |ms| == 1;
    assert AfterMember(ns, t)[0] == '}' <==> |ns| == 1;
    if |ms| > 1 {
      Cancel(",", SerializeMembers(ms[1..]) + s, SerializeMembers(ns[1..]) + t);
    }
  }

  lemma {:induction false} MemberPrefix(m: Member, n: Member, s: string, t: string)
    requires WellFormed(m.value) && WellFormed(n.value) && Stops(s) && Stops(t)
    requires Quote(m.key) + (":" + (Serialize(m.value) + s)) == Quote(n.key) + (":" + (Serialize(n.value) + t))
    ensures m == n && s == t
    decreases m, 1
  {
    QuotePrefix(m.key, n.key, ":" + (Serialize(m.value) + s), ":" + (Serialize(n.value) + t));
    Cancel(":", Serialize(m.value) + s, Serialize(n.value) + t);
    SerializePrefix(m.value, n.value, s, t);
  }

  lemma MembersStart(members: seq<Member>, s: string)
    requires s != "" && s[0] == '}'
    ensures members == [] ==> SerializeMembers(members) + s == s
    ensures members != [] ==>
      SerializeMembers(members) + s ==
        Quote(members[0].key) + (":" + (Serialize(members[0].value) + AfterMember(members, s)))
    ensures (SerializeMembers(members) + s)[0] == '}' <==> members == []
  {
    if |members| == 1 {
      Regroup(Quote(members[0].key), ":", Serialize(members[0].value), "", "", s);
    } else if |members| > 1 {
      Regroup(Quote(members[0].key), ":", Serialize(members[0].value), ",", SerializeMembers(members[1..]), s);
    }
  }

  lemma Regroup(a: string, b: string, c: string, d: string, e: string, f: string)
    ensures a + b + c + d + e + f == a + (b + (c + (d + (e + f))))
    ensures d == "" && e == "" ==> a + b + c + d + e + f == a + b + c + f && d + (e + f) == f
  {
  }

  function CanonicalText(v: Json): string {
    Serialize(Canonicalize(v))
  }

  /** Two values have the same canonical text exactly when they differ only in member order, at any depth. */
  lemma CanonicalTextExact(v: Json, w: Json)
    requires WellFormed(v) && WellFormed(w)
    ensures CanonicalText(v) == CanonicalText(w) <==> SameUpToOrder(v, w)
  {
    if CanonicalText(v) == CanonicalText(w) {
      CanonicalizeKeepsValue(v);
      CanonicalizeKeepsValue(w);
      SerializePrefix(Canonicalize(v), Canonicalize(w), "", "");
      CanonicalFormDetermines(v, w);
    }
    if SameUpToOrder(v, w) {
      SameHasOneCanonicalForm(v, w);
    }
  }
}
