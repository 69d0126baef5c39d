/** An already-parsed JSON document as Python's `json.load` delivers it, and the
    Python operations both tools apply to such values: `dict.get`, truthiness,
    hashing into a `set`, and `str()` (through `repr` for containers). */
module JsonValue {
  import opened Wrappers
  import opened PyText

  /** A JSON value. Numbers are integers only; an object keeps its members in
      document order, as a Python `dict` keeps insertion order. */
  datatype Json =
    | JNull
    | JBool(b: bool)
    | JInt(n: int)
    | JStr(s: string)
    | JArr(elems: seq<Json>)
    | JObj(members: seq<Member>)

  datatype Member = Member(name: string, value: Json)

  /** The value bound to `key`; when a name repeats, the last binding wins, as
      `json.load` keeps the last value of a repeated name. */
  function Lookup(members: seq<Member>, key: string): Option<Json>
  {
    if |members| == 0 then None
    else if members[|members| - 1].name == key then Some(members[|members| - 1].value)
    else Lookup(members[..|members| - 1], key)
  }

  /** `obj.get(key, default)` on a dict. */
  function GetOr(obj: Json, key: string, default: Json): Json
    requires obj.JObj?
  {
    match Lookup(obj.members, key)
    case Some(v) => v
    case None => default
  }

  /** `obj.get(key)` on a dict: `None` when the key is absent. */
  function Get(obj: Json, key: string): Json
    requires obj.JObj?
  {
    GetOr(obj, key, JNull)
  }

  /** Python truthiness: `None`, `False`, `0`, `""`, `[]` and `{}` are false. */
  predicate Truthy(j: Json) {
    match j
    case JNull => false
    case JBool(b) => b
    case JInt(n) => n != 0
    case JStr(s) => s != []
    case JArr(a) => a != []
    case JObj(m) => m != []
  }

  /** What a Python `set` compares: hashable values, with `True`/`False`
      identified with `1`/`0` as Python's `==` and `hash` identify them. */
  datatype HashKey = HNone | HInt(n: int) | HStr(s: string)

  /** The set element a JSON value becomes; `None` for lists and dicts, which
      Python refuses to hash (a `TypeError`). */
  function HashKeyOf(j: Json): (r: Option<HashKey>)
    ensures r.None? <==> j.JArr? || j.JObj?
  {
    match j
    case JNull => Some(HNone)
    case JBool(b) => Some(HInt(if b then 1 else 0))
    case JInt(n) => Some(HInt(n))
    case JStr(s) => Some(HStr(s))
    case _ => None
  }

  /** Python `==` between two hashable JSON values, stated case by case. */
  predicate PyEq(a: Json, b: Json) {
    match (a, b)
    case (JNull, JNull) => true
    case (JBool(x), JBool(y)) => x == y
    case (JBool(x), JInt(n)) => n == (if x then 1 else 0)
    case (JInt(n), JBool(y)) => n == (if y then 1 else 0)
    case (JInt(n), JInt(m)) => n == m
    case (JStr(s), JStr(t)) => s == t
    case _ => false
  }

  /** Set membership by hash key agrees with Python equality. */
  lemma HashKeyMatchesPyEq(a: Json, b: Json)
    requires HashKeyOf(a).Some? && HashKeyOf(b).Some?
    ensures HashKeyOf(a) == HashKeyOf(b) <==> PyEq(a, b)
  {
  }

  function HexDigit(d: nat): char
    requires d < 16
  {
    "0123456789abcdef"[d]
  }

  /** One character of a string as `repr` writes it inside quote `q`
      (non-ASCII characters are taken to be printable). */
  function EscapeChar(c: char, q: char): string {
    var n := c as int;
    if c == q || c == '\\' then ['\\', c]
    else if c == '\t' then "\\t"
    else if c == '\n' then "\\n"
    else if c == '\r' then "\\r"
    else if n < 0x20 || n == 0x7F then "\\x" + [HexDigit(n / 16), HexDigit(n % 16)]
    else [c]
  }

  function EscapeAll(s: string, q: char): string {
    if s == [] then [] else EscapeAll(s[..|s| - 1], q) + EscapeChar(s[|s| - 1], q)
  }

  /** Python's `repr` of a string: single quotes unless the text holds a single
      quote and no double quote. */
  function ReprStr(s: string): (r: string)
    ensures |r| >= 2 && (r[0] == '\'' || r[0] == '"') && r[|r| - 1] == r[0]
  {
    var q := if '\'' in s && '"' !in s then '"' else '\'';
    [q] + EscapeAll(s, q) + [q]
  }

  /** `sep.join(parts)`. */
  function Join(sep: string, parts: seq<string>): string {
    if |parts| == 0 then []
    else if |parts| == 1 then parts[0]
    else Join(sep, parts[..|parts| - 1]) + sep + parts[|parts| - 1]
  }

  /** Python's `repr` of a JSON value. */
  function Repr(j: Json): (r: string)
    ensures |r| > 0
    decreases j, 1
  {
    match j
    case JStr(s) => ReprStr(s)
    case JNull => "None"
    case _ => ToStr(j)
  }

  /** Python's `str()` of a JSON value, with `None` read as `""`: the program's
      `to_str`. Numbers, lists and dicts all become non-blank text. */
  function ToStr(j: Json): (r: string)
    ensures j.JNull? ==> r == []
    ensures j.JStr? ==> r == j.s
    ensures j.JArr? ==> |r| >= 2 && r[0] == '[' && r[|r| - 1] == ']'
    ensures j.JObj? ==> |r| >= 2 && r[0] == '{' && r[|r| - 1] == '}'
    decreases j, 0
  {
    match j
    case JNull => []
    case JBool(b) => if b then "True" else "False"
    case JInt(n) => IntToStr(n)
    case JStr(s) => s
    case JArr(a) => "[" + Join(", ", ItemReprs(a)) + "]"
    case JObj(m) => "{" + Join(", ", MemberReprs(DictItems(m), m)) + "}"
  }

  /** The `repr` of each list item, in order. */
  function ItemReprs(a: seq<Json>): (r: seq<string>)
    ensures |r| == |a|
    decreases a, 2
  {
    if a == [] then [] else ItemReprs(a[..|a| - 1]) + [Repr(a[|a| - 1])]
  }

  /** Each item of a dict built from `whole` as `repr(name): repr(value)`, in order. */
  function MemberReprs(items: seq<Member>, whole: seq<Member>): (r: seq<string>)
    requires forall x :: x in items ==> x in whole
    ensures |r| == |items|
    decreases whole, 2, |items|
  {
    if items == [] then []
    else
      var last := items[|items| - 1];
      assert last in whole;
      MemberReprs(items[..|items| - 1], whole) + [ReprStr(last.name) + ": " + Repr(last.value)]
  }

  /** No name is bound twice. */
  predicate NamesDistinct(d: seq<Member>) {
    forall i, j :: 0 <= i < j < |d| ==> d[i].name != d[j].name
  }

  /** `d[x.name] = x.value` on a dict whose items are `d`: a bound name keeps its
      position and takes the new value; a new name goes at the end. */
  function Assign(d: seq<Member>, x: Member): (r: seq<Member>)
    ensures forall y :: y in r ==> y in d || y == x
  {
    if d == [] then [x]
    else if d[0].name == x.name then [x] + d[1..]
    else [d[0]] + Assign(d[1..], x)
  }

  /** The items of the dict `json.load` builds from an object's members, as
      repeated `d[name] = value` leaves it. */
  function DictItems(m: seq<Member>): (d: seq<Member>)
    ensures forall y :: y in d ==> y in m
  {
    if m == [] then [] else Assign(DictItems(m[..|m| - 1]), m[|m| - 1])
  }

  /** The names of `d`, in order. */
  function Names(d: seq<Member>): (r: seq<string>)
    ensures |r| == |d|
  {
    if d == [] then [] else [d[0].name] + Names(d[1..])
  }

  /** The names of an object's members in the order they first appear. */
  function FirstNames(m: seq<Member>): seq<string> {
    if m == [] then []
    else
      var p := FirstNames(m[..|m| - 1]);
      if m[|m| - 1].name in p then p else p + [m[|m| - 1].name]
  }

  /** Assigning to a dict with distinct names replaces the binding of `x.name`
      by `x` and leaves the other items alone. */
  lemma {:induction false} AssignMembers(d: seq<Member>, x: Member)
    requires NamesDistinct(d)
    ensures forall y :: y in Assign(d, x) <==> y == x || (y in d && y.name != x.name)
  {
    if d != [] {
      assert NamesDistinct(d[1..]);
      assert forall y :: y in d <==> y == d[0] || y in d[1..];
      if d[0].name == x.name {
        forall y | y in d[1..] ensures y.name != x.name {
          var i :| 0 <= i < |d[1..]| && d[1..][i] == y;
          assert d[i + 1] == y;
        }
      } else {
        AssignMembers(d[1..], x);
      }
    }
  }

  /** Assigning keeps the names distinct. */
  lemma {:induction false} AssignDistinct(d: seq<Member>, x: Member)
    requires NamesDistinct(d)
    ensures NamesDistinct(Assign(d, x))
  {
    if d != [] {
      DistinctTail(d);
      if d[0].name == x.name {
        DistinctCons(x, d[1..]);
      } else {
        AssignDistinct(d[1..], x);
        AssignMembers(d[1..], x);
        DistinctCons(d[0], Assign(d[1..], x));
      }
    }
  }

  /** The tail of a dict is a dict none of whose names is the head's. */
  lemma DistinctTail(d: seq<Member>)
    requires d != [] && NamesDistinct(d)
    ensures NamesDistinct(d[1..])
    ensures forall y :: y in d[1..] ==> y.name != d[0].name
  {
    forall y | y in d[1..] ensures y.name != d[0].name {
      var k :| 0 <= k < |d[1..]| && d[1..][k] == y;
      assert d[k + 1] == y;
    }
  }

  /** A member whose name is new to a dict can be put in front of it. */
  lemma DistinctCons(x: Member, d: seq<Member>)
    requires NamesDistinct(d)
    requires forall y :: y in d ==> y.name != x.name
    ensures NamesDistinct([x] + d)
  {
    var r := [x] + d;
    forall i, j | 0 <= i < j < |r| ensures r[i].name != r[j].name {
      assert r[j] == d[j - 1];
      if i > 0 {
        assert r[i] == d[i - 1];
      }
    }
  }

  /** Assigning leaves the order of the names alone and adds a new name at the end. */
  lemma {:induction false} AssignNames(d: seq<Member>, x: Member)
    ensures Names(Assign(d, x)) == if x.name in Names(d) then Names(d) else Names(d) + [x.name]
  {
    if d != [] {
      assert Names(d) == [d[0].name] + Names(d[1..]);
      if d[0].name != x.name {
        AssignNames(d[1..], x);
        assert Assign(d, x) == [d[0]] + Assign(d[1..], x);
      }
    }
  }

  /** With distinct names, a name's binding is the one item carrying it. */
  lemma {:induction false} LookupDistinct(d: seq<Member>, k: string, v: Json)
    requires NamesDistinct(d)
    ensures Lookup(d, k) == Some(v) <==> Member(k, v) in d
  {
    if d != [] {
      var p := d[..|d| - 1];
      assert NamesDistinct(p);
      LookupDistinct(p, k, v);
      assert forall y :: y in d <==> y in p || y == d[|d| - 1];
    }
  }

  /** A name is unbound exactly when no member carries it. */
  lemma {:induction false} LookupNone(d: seq<Member>, k: string)
    ensures Lookup(d, k).None? <==> forall y :: y in d ==> y.name != k
  {
    if d != [] {
      var p := d[..|d| - 1];
      LookupNone(p, k);
      assert forall y :: y in d <==> y in p || y == d[|d| - 1];
    }
  }

  /** The dict holds each name once, in the order the names first appear. */
  lemma {:induction false} DictItemsShape(m: seq<Member>)
    ensures NamesDistinct(DictItems(m))
    ensures Names(DictItems(m)) == FirstNames(m)
  {
    if m != [] {
      var p := m[..|m| - 1];
      DictItemsShape(p);
      AssignDistinct(DictItems(p), m[|m| - 1]);
      AssignNames(DictItems(p), m[|m| - 1]);
    }
  }

  /** Every name is bound in the dict to the value its last binding in the
      document gives it. */
  lemma {:induction false} DictItemsLookup(m: seq<Member>, k: string)
    ensures Lookup(DictItems(m), k) == Lookup(m, k)
  {
    if m != [] {
      var p, x := m[..|m| - 1], m[|m| - 1];
      var d := DictItems(p);
      DictItemsLookup(p, k);
      DictItemsShape(p);
      AssignMembers(d, x);
      var r := DictItems(m);
      assert r == Assign(d, x);
      DictItemsShape(m);
      if x.name == k {
        LookupDistinct(r, k, x.value);
      } else {
        LookupNone(d, k);
        LookupNone(r, k);
        if Lookup(d, k).Some? {
          LookupDistinct(d, k, Lookup(d, k).value);
          LookupDistinct(r, k, Lookup(d, k).value);
        }
      }
    }
  }

  /** Assigning a new name appends it. */
  lemma {:induction false} AssignNew(d: seq<Member>, x: Member)
    requires forall y :: y in d ==> y.name != x.name
    ensures Assign(d, x) == d + [x]
  {
    if d != [] {
      assert d[0] in d;
      assert forall y :: y in d[1..] ==> y in d;
      AssignNew(d[1..], x);
      assert d == [d[0]] + d[1..];
    }
  }

  /** Members with distinct names already are the dict they build. */
  lemma {:induction false} DictItemsOfDistinct(d: seq<Member>)
    requires NamesDistinct(d)
    ensures DictItems(d) == d
  {
    if d != [] {
      var p, x := d[..|d| - 1], d[|d| - 1];
      assert NamesDistinct(p);
      DictItemsOfDistinct(p);
      forall y | y in p ensures y.name != x.name {
        var i :| 0 <= i < |p| && p[i] == y;
        assert d[i] == y;
      }
      AssignNew(p, x);
      assert p + [x] == d;
    }
  }

  /** The rendering of dict items does not depend on the members they came from. */
  lemma {:induction false} MemberReprsAnyWhole(items: seq<Member>, w: seq<Member>, w': seq<Member>)
    requires forall x :: x in items ==> x in w
    requires forall x :: x in items ==> x in w'
    ensures MemberReprs(items, w) == MemberReprs(items, w')
    decreases |items|
  {
    if items != [] {
      var p := items[..|items| - 1];
      assert forall x :: x in p ==> x in items;
      MemberReprsAnyWhole(p, w, w');
    }
  }

  /** `dict.get(key, default)` on the dict `json.load` builds from an object:
      the value the dict binds to `key`, or `default` when it binds none. */
  lemma GetOrDict(obj: Json, key: string, default: Json)
    requires obj.JObj?
    ensures forall v :: Member(key, v) in DictItems(obj.members) ==> GetOr(obj, key, default) == v
    ensures (forall y :: y in DictItems(obj.members) ==> y.name != key) ==> GetOr(obj, key, default) == default
  {
    var d := DictItems(obj.members);
    DictItemsLookup(obj.members, key);
    DictItemsShape(obj.members);
    LookupNone(d, key);
    forall v | Member(key, v) in d ensures GetOr(obj, key, default) == v {
      LookupDistinct(d, key, v);
    }
  }

  /** `str()` of an object is that of the dict `json.load` builds from it: a
      repeated name is printed once, where it first appears, with its last value. */
  lemma ToStrOfDict(m: seq<Member>)
    ensures ToStr(JObj(m)) == ToStr(JObj(DictItems(m)))
  {
    var d := DictItems(m);
    DictItemsShape(m);
    DictItemsOfDistinct(d);
    MemberReprsAnyWhole(d, m, d);
  }

  /** `{"a": 1, "a": 2}` prints as `{'a': 2}`. */
  lemma RepeatedNameExample(m: seq<Member>)
    requires m == [Member("a", JInt(1)), Member("a", JInt(2))]
    ensures DictItems(m) == [Member("a", JInt(2))]
    ensures ToStr(JObj(m)) == ToStr(JObj([Member("a", JInt(2))]))
  {
    assert DictItems(m[..1]) == [m[0]];
    assert DictItems(m) == [m[1]];
    ToStrOfDict(m);
  }

  /** `to_str(x).strip()` is empty exactly for `None` and for strings of
      whitespace: booleans, numbers, lists and dicts never count as blank. */
  lemma BlankIff(j: Json)
    ensures Strip(ToStr(j)) == [] <==> j.JNull? || (j.JStr? && AllSpace(j.s))
  {
    StripEmptyIff(ToStr(j));
    match j
    case JNull =>
    case JStr(s) =>
    case _ =>
      var r := ToStr(j);
      assert |r| > 0 && !IsSpace(r[0]);
      StripNonEmpty(r);
  }

  /** `to_str` of an integer is its decimal numeral, which reads back to it. */
  lemma IntToStrReadsBack(n: int)
    ensures SignedValue(ToStr(JInt(n))) == n
  {
    IntToStrRoundTrip(n);
  }
}
