/**
  The rewrite of JSON keys to a lower-case first letter, applied to stored
  cipher data before it is sent, and the deserializer that does the same while
  reading. Objects keep their keys in insertion order.
 */
module JsonKeys {
  import opened Wrappers

  datatype Json =
    | Null
    | Bool(b: bool)
    | Number(n: real)
    | Text(s: string)
    | Array(items: seq<Json>)
    | Object(entries: seq<Entry>)

  datatype Entry = Entry(key: string, value: Json)

  // ---------- keys ----------

  /** The lower-case mapping of single characters; its images are stable, and on ASCII it is what one expects. */
  ghost predicate LowerTable(lower: char -> string) {
    && (forall c :: lower(c) != "" && forall d :: d in lower(c) ==> lower(d) == [d])
    && (forall c :: 'A' <= c <= 'Z' ==> lower(c) == [c - 'A' + 'a'])
  }

  function Lowered(lower: char -> string, s: string): string {
    if s == "" then "" else lower(s[0]) + Lowered(lower, s[1..])
  }

  function LowerFirst(lower: char -> string, s: string): string {
    if s == "" then "" else lower(s[0]) + s[1..]
  }

  function ProcessKey(lower: char -> string, key: string): string {
    if Lowered(lower, key) == "ssn" then "ssn" else LowerFirst(lower, key)
  }

  // ---------- ordered maps ----------

  function IndexOf(es: seq<Entry>, key: string): (i: int)
    ensures -1 <= i < |es|
    ensures i >= 0 ==> es[i].key == key
    ensures i < 0 ==> forall k :: 0 <= k < |es| ==> es[k].key != key
  {
    if es == [] then -1
    else if es[|es| - 1].key == key then |es| - 1
    else IndexOf(es[..|es| - 1], key)
  }

  /** A known key keeps its place and gets the new value, a new key goes to the end. */
  function Insert(es: seq<Entry>, key: string, value: Json): seq<Entry> {
    var i := IndexOf(es, key);
    if i >= 0 then es[i := Entry(key, value)] else es + [Entry(key, value)]
  }

  ghost predicate DistinctKeys(es: seq<Entry>) {
    forall i, j :: 0 <= i < j < |es| ==> es[i].key != es[j].key
  }

  /** A JSON value as held in memory: no object repeats a key. */
  ghost predicate WellFormed(j: Json)
    decreases j
  {
    match j
    case Array(items) => forall i :: 0 <= i < |items| ==> WellFormed(items[i])
    case Object(es) => DistinctKeys(es) && forall i :: 0 <= i < |es| ==> WellFormed(es[i].value)
    case _ => true
  }

  // ---------- the rewrite ----------

  function Children(j: Json): nat {
    match j
    case Array(items) => |items|
    case Object(es) => |es|
    case _ => 0
  }

  function Convert(lower: char -> string, j: Json): Json
    decreases j, Children(j) + 1
  {
    match j
    case Array(items) => Array(ConvertItems(lower, j, |items|))
    case Object(es) => Object(ConvertEntries(lower, j, |es|))
    case _ => j
  }

  function ConvertItems(lower: char -> string, j: Json, n: nat): (r: seq<Json>)
    requires j.Array? && n <= |j.items|
    ensures |r| == n
    decreases j, n
  {
    if n == 0 then [] else ConvertItems(lower, j, n - 1) + [Convert(lower, j.items[n - 1])]
  }

  function ConvertEntries(lower: char -> string, j: Json, n: nat): seq<Entry>
    requires j.Object? && n <= |j.entries|
    decreases j, n
  {
    if n == 0 then [] else
    var e := j.entries[n - 1];
    Insert(ConvertEntries(lower, j, n - 1), ProcessKey(lower, e.key), Convert(lower, e.value))
  }

  // ---------- the loops ----------

  method ConvertArray(lower: char -> string, j: Json) returns (r: seq<Json>)
    requires j.Array?
    ensures r == ConvertItems(lower, j, |j.items|)
    decreases j, 0
  {
    r := [];
    for i := 0 to |j.items|
      invariant r == ConvertItems(lower, j, i)
    {
      var item := ConvertJson(lower, j.items[i]);
      r := r + [item];
    }
  }

  method ConvertObject(lower: char -> string, j: Json) returns (r: seq<Entry>)
    requires j.Object?
    ensures r == ConvertEntries(lower, j, |j.entries|)
    decreases j, 0
  {
    r := [];
    for i := 0 to |j.entries|
      invariant r == ConvertEntries(lower, j, i)
    {
      var e := j.entries[i];
      var value := e.value;
      if value.Object? || value.Array? {
        value := ConvertJson(lower, e.value);
      }
      r := Insert(r, ProcessKey(lower, e.key), value);
    }
  }

  /** The recursive function of the source: new arrays and objects, anything else as it is. */
  method ConvertJson(lower: char -> string, j: Json) returns (r: Json)
    ensures r == Convert(lower, j)
    decreases j, 1
  {
    if j.Array? {
      var items := ConvertArray(lower, j);
      r := Array(items);
    } else if j.Object? {
      var entries := ConvertObject(lower, j);
      r := Object(entries);
    } else {
      r := j;
    }
  }

  /** The deserializer's side: members as the reader delivers them. */
  method VisitMap(lower: char -> string, raw: seq<Entry>) returns (r: Json)
    ensures r == Convert(lower, Object(raw))
  {
    hide Insert, ProcessKey;
    var result: seq<Entry> := [];
    for i := 0 to |raw|
      invariant result == ConvertEntries(lower, Object(raw), i)
    {
      var value := ConvertJson(lower, raw[i].value);
      result := Insert(result, ProcessKey(lower, raw[i].key), value);
    }
    r := Object(result);
  }

  method VisitSeq(lower: char -> string, raw: seq<Json>) returns (r: Json)
    ensures r == Convert(lower, Array(raw))
  {
    var result: seq<Json> := [];
    for i := 0 to |raw|
      invariant result == ConvertItems(lower, Array(raw), i)
    {
      var value := ConvertJson(lower, raw[i]);
      result := result + [value];
    }
    r := Array(result);
  }

  // ---------- keys: lemmas ----------

  lemma {:induction false} LoweredConcat(lower: char -> string, a: string, b: string)
    ensures Lowered(lower, a + b) == Lowered(lower, a) + Lowered(lower, b)
  {
    if a == "" {
      assert a + b == b;
    } else {
      assert (a + b)[1..] == a[1..] + b;
      LoweredConcat(lower, a[1..], b);
    }
  }

  lemma {:induction false} LoweredStable(lower: char -> string, s: string)
    requires forall d :: d in s ==> lower(d) == [d]
    ensures Lowered(lower, s) == s
  {
    if s != "" {
      LoweredStable(lower, s[1..]);
      assert s == [s[0]] + s[1..];
    }
  }

  lemma FirstLowered(lower: char -> string, key: string)
    requires LowerTable(lower) && key != ""
    ensures var r := LowerFirst(lower, key);
      r != "" && lower(r[0]) == [r[0]] && LowerFirst(lower, r) == r && Lowered(lower, r) == Lowered(lower, key)
  {
    var head := lower(key[0]);
    var r := LowerFirst(lower, key);
    assert r[0] == head[0] && head[0] in head;
    assert r == [r[0]] + r[1..];
    LoweredConcat(lower, head, key[1..]);
    LoweredStable(lower, head);
  }

  /** A key that is no spelling of "ssn" has its first character lowered and the rest left alone. */
  lemma KeyExact(lower: char -> string, key: string)
    requires key != "" && Lowered(lower, key) != "ssn"
    ensures ProcessKey(lower, key) == lower(key[0]) + key[1..]
  {
  }

  lemma LoweredOne(lower: char -> string, c: char)
    ensures Lowered(lower, [c]) == lower(c)
  {
    assert [c][1..] == "" && lower(c) + "" == lower(c);
  }

  lemma AsciiLower(lower: char -> string, c: char)
    requires LowerTable(lower)
    ensures 'A' <= c <= 'Z' ==> lower(c) == [c - 'A' + 'a']
    ensures 'a' <= c <= 'z' ==> lower(c) == [c]
  {
    if 'a' <= c <= 'z' {
      var capital := c - 'a' + 'A';
      assert lower(capital) == [c] && c in lower(capital);
    }
  }

  /** Every spelling of "ssn" becomes "ssn". */
  lemma SsnExact(lower: char -> string, key: string)
    requires LowerTable(lower) && |key| == 3 && key[0] in "sS" && key[1] in "sS" && key[2] in "nN"
    ensures ProcessKey(lower, key) == "ssn"
  {
    AsciiLower(lower, key[0]);
    AsciiLower(lower, key[1]);
    AsciiLower(lower, key[2]);
    hide LowerTable, Lowered;
    LoweredOne(lower, key[0]);
    LoweredOne(lower, key[1]);
    LoweredOne(lower, key[2]);
    LoweredConcat(lower, [key[0]], [key[1]]);
    LoweredConcat(lower, [key[0]] + [key[1]], [key[2]]);
    assert key == [key[0]] + [key[1]] + [key[2]];
  }

  /** For keys that begin with an ASCII letter, in particular: "LinkedId" becomes "linkedId", and "linkedId" stays. */
  lemma AsciiKey(lower: char -> string, key: string)
    requires LowerTable(lower) && key != "" && Lowered(lower, key) != "ssn"
    ensures 'A' <= key[0] <= 'Z' ==> ProcessKey(lower, key) == [key[0] - 'A' + 'a'] + key[1..]
    ensures 'a' <= key[0] <= 'z' ==> ProcessKey(lower, key) == key
  {
    AsciiLower(lower, key[0]);
    hide LowerTable, Lowered;
    assert key == [key[0]] + key[1..];
  }

  /** A key that the rewrite leaves alone: "ssn" of all its spellings, and any other whose first character is its own lower case. */
  ghost predicate KeyStays(lower: char -> string, key: string) {
    if Lowered(lower, key) == "ssn" then key == "ssn" else key != "" ==> lower(key[0]) == [key[0]]
  }

  lemma StaysExactly(lower: char -> string, key: string)
    ensures ProcessKey(lower, key) == key <==> KeyStays(lower, key)
  {
    if key != "" {
      assert key == [key[0]] + key[1..];
      if lower(key[0]) + key[1..] == key {
        assert |lower(key[0])| == 1;
        assert lower(key[0])[0] == (lower(key[0]) + key[1..])[0];
      }
    }
  }

  /** Processing a key twice is processing it once. */
  lemma ProcessKeyTwice(lower: char -> string, key: string)
    requires LowerTable(lower)
    ensures ProcessKey(lower, ProcessKey(lower, key)) == ProcessKey(lower, key)
  {
    if Lowered(lower, key) == "ssn" {
      LowerSsn(lower, key);
    } else if key != "" {
      FirstLowered(lower, key);
    }
  }

  /** The letters of "ssn" are stable, as they are images of the mapping. */
  lemma LowerSsn(lower: char -> string, key: string)
    requires LowerTable(lower) && Lowered(lower, key) == "ssn"
    ensures Lowered(lower, "ssn") == "ssn"
  {
    assert lower('S') == "s" && lower('N') == "n";
    assert 's' in lower('S') && 'n' in lower('N');
    LoweredStable(lower, "ssn");
  }

  lemma NoCapitalFirst(lower: char -> string, key: string)
    requires LowerTable(lower)
    ensures var r := ProcessKey(lower, key); r != "" ==> !('A' <= r[0] <= 'Z')
  {
    if Lowered(lower, key) != "ssn" && key != "" {
      FirstLowered(lower, key);
    }
  }

  // ---------- ordered maps: lemmas ----------

  /** Member k is the last of the first n whose processed key is that of e, and e is its conversion. */
  ghost predicate ComesFrom(lower: char -> string, j: Json, n: nat, e: Entry, k: int)
    requires j.Object? && n <= |j.entries|
  {
    && 0 <= k < n && e == Entry(ProcessKey(lower, j.entries[k].key), Convert(lower, j.entries[k].value))
    && forall i :: k < i < n ==> ProcessKey(lower, j.entries[i].key) != e.key
  }

  lemma InsertDistinct(es: seq<Entry>, key: string, value: Json)
    requires DistinctKeys(es)
    ensures DistinctKeys(Insert(es, key, value))
  {
  }

  /** What an insertion leaves: the new member, and the old ones with other keys. */
  lemma InsertMembers(es: seq<Entry>, key: string, value: Json)
    requires DistinctKeys(es)
    ensures DistinctKeys(Insert(es, key, value))
    ensures forall e :: e in Insert(es, key, value) <==> e == Entry(key, value) || (e in es && e.key != key)
  {
    var r := Insert(es, key, value);
    var i := IndexOf(es, key);
    if i >= 0 {
      assert r[i] == Entry(key, value) && r[i] in r;
      forall e | e in es && e.key != key ensures e in r {
        var k :| 0 <= k < |es| && es[k] == e;
        assert r[k] == e;
      }
      forall e | e in r && e != Entry(key, value) ensures e in es && e.key != key {
        var k :| 0 <= k < |r| && r[k] == e;
        assert k != i && es[k] == e;
      }
    } else {
      assert r == es + [Entry(key, value)];
    }
  }

  /** An object as the parser collects it: a repeated key keeps its place and its last value. */
  function Collected(raw: seq<Entry>): seq<Entry> {
    if raw == [] then [] else
    var e := raw[|raw| - 1];
    Insert(Collected(raw[..|raw| - 1]), e.key, e.value)
  }

  lemma CollectedLast(raw: seq<Entry>)
    requires raw != []
    ensures var e := raw[|raw| - 1]; Collected(raw) == Insert(Collected(raw[..|raw| - 1]), e.key, e.value)
  {
    hide Insert;
  }

  lemma {:induction false} CollectedKeys(raw: seq<Entry>)
    ensures DistinctKeys(Collected(raw))
  {
    if raw != [] {
      CollectedLast(raw);
      hide Collected, Insert;
      var n := |raw| - 1;
      CollectedKeys(raw[..n]);
      InsertDistinct(Collected(raw[..n]), raw[n].key, raw[n].value);
    }
  }

  /** The members with their keys processed and their values converted, before any two fall together. */
  function Rewritten(lower: char -> string, raw: seq<Entry>): (r: seq<Entry>)
    ensures |r| == |raw|
  {
    seq(|raw|, i requires 0 <= i < |raw| => Entry(ProcessKey(lower, raw[i].key), Convert(lower, raw[i].value)))
  }

  /** The rewrite collects the rewritten members. */
  lemma {:induction false} ConvertCollects(lower: char -> string, raw: seq<Entry>, n: nat)
    requires n <= |raw|
    ensures ConvertEntries(lower, Object(raw), n) == Collected(Rewritten(lower, raw)[..n])
  {
    hide ProcessKey, Convert, Insert;
    if n > 0 {
      ConvertCollects(lower, raw, n - 1);
      var r := Rewritten(lower, raw)[..n];
      assert r[..n - 1] == Rewritten(lower, raw)[..n - 1];
      assert r[n - 1] == Entry(ProcessKey(lower, raw[n - 1].key), Convert(lower, raw[n - 1].value));
    }
  }

  lemma EntriesDistinct(lower: char -> string, j: Json, n: nat)
    requires j.Object? && n <= |j.entries|
    ensures DistinctKeys(ConvertEntries(lower, j, n))
  {
    hide ConvertEntries, Collected, DistinctKeys;
    ConvertCollects(lower, j.entries, n);
    CollectedKeys(Rewritten(lower, j.entries)[..n]);
  }

  /** Whatever is in the result was last in the source among its likes. */
  lemma {:induction false} EntryFrom(lower: char -> string, j: Json, n: nat, e: Entry) returns (k: int)
    requires j.Object? && n <= |j.entries| && e in ConvertEntries(lower, j, n)
    ensures ComesFrom(lower, j, n, e, k)
    decreases n
  {
    hide Insert, ProcessKey, Convert;
    var key, value := ProcessKey(lower, j.entries[n - 1].key), Convert(lower, j.entries[n - 1].value);
    EntriesDistinct(lower, j, n - 1);
    InsertMembers(ConvertEntries(lower, j, n - 1), key, value);
    k := n - 1;
    if e != Entry(key, value) {
      k := EntryFrom(lower, j, n - 1, e);
    }
  }

  /** Whatever is last in the source among its likes is in the result. */
  lemma {:induction false} EntryInto(lower: char -> string, j: Json, n: nat, e: Entry, k: int)
    requires j.Object? && n <= |j.entries| && ComesFrom(lower, j, n, e, k)
    ensures e in ConvertEntries(lower, j, n)
    decreases n
  {
    hide Insert, ProcessKey, Convert;
    var key, value := ProcessKey(lower, j.entries[n - 1].key), Convert(lower, j.entries[n - 1].value);
    EntriesDistinct(lower, j, n - 1);
    InsertMembers(ConvertEntries(lower, j, n - 1), key, value);
    if k < n - 1 {
      assert e.key != key;
      EntryInto(lower, j, n - 1, e, k);
    }
  }

  /**
    The members of a rewritten object: one for each processed key, holding the
    conversion of the last source member with that key.
   */
  lemma ObjectExact(lower: char -> string, es: seq<Entry>)
    ensures Convert(lower, Object(es)).Object? && DistinctKeys(Convert(lower, Object(es)).entries)
    ensures forall e :: e in Convert(lower, Object(es)).entries <==> exists k :: ComesFrom(lower, Object(es), |es|, e, k)
  {
    hide ComesFrom;
    var j := Object(es);
    EntriesDistinct(lower, j, |es|);
    forall e | e in Convert(lower, j).entries ensures exists k :: ComesFrom(lower, j, |es|, e, k) {
      var k := EntryFrom(lower, j, |es|, e);
    }
    forall e, k | ComesFrom(lower, j, |es|, e, k) ensures e in Convert(lower, j).entries {
      EntryInto(lower, j, |es|, e, k);
    }
  }

  /** An array keeps its length and order, each element rewritten; anything that is not an array or object stays. */
  lemma ArrayExact(lower: char -> string, j: Json)
    ensures j.Array? ==>
      var r := Convert(lower, j);
      r.Array? && |r.items| == |j.items| && forall i :: 0 <= i < |j.items| ==> r.items[i] == Convert(lower, j.items[i])
    ensures !j.Array? && !j.Object? ==> Convert(lower, j) == j
  {
    if j.Array? {
      forall i | 0 <= i < |j.items| ensures ConvertItems(lower, j, |j.items|)[i] == Convert(lower, j.items[i]) {
        ItemsAt(lower, j, |j.items|, i);
      }
    }
  }

  // ---------- the result ----------

  /** No key at any depth starts with an ASCII capital, and no object repeats a key. */
  ghost predicate Lowercased(j: Json)
    decreases j
  {
    match j
    case Array(items) => forall i :: 0 <= i < |items| ==> Lowercased(items[i])
    case Object(es) =>
      && DistinctKeys(es)
      && forall i :: 0 <= i < |es| ==> (es[i].key != "" ==> !('A' <= es[i].key[0] <= 'Z')) && Lowercased(es[i].value)
    case _ => true
  }

  lemma {:induction false} ItemsAt(lower: char -> string, j: Json, n: nat, i: nat)
    requires j.Array? && i < n <= |j.items|
    ensures ConvertItems(lower, j, n)[i] == Convert(lower, j.items[i])
  {
    if i < n - 1 {
      ItemsAt(lower, j, n - 1, i);
    }
  }

  /** Whatever goes in, no key of the result starts with an ASCII capital. */
  lemma {:induction false} NoCapitals(lower: char -> string, j: Json)
    requires LowerTable(lower)
    ensures Lowercased(Convert(lower, j))
    decreases j
  {
    match j
    case Array(items) =>
      forall i | 0 <= i < |items| ensures Lowercased(Convert(lower, j).items[i]) {
        ItemsAt(lower, j, |items|, i);
        NoCapitals(lower, items[i]);
      }
    case Object(es) =>
      EntriesDistinct(lower, j, |es|);
      var r := Convert(lower, j).entries;
      forall i | 0 <= i < |r| ensures (r[i].key != "" ==> !('A' <= r[i].key[0] <= 'Z')) && Lowercased(r[i].value) {
        assert r[i] in r;
        var k := EntryFrom(lower, j, |es|, r[i]);
        NoCapitalFirst(lower, es[k].key);
        NoCapitals(lower, es[k].value);
      }
    case _ =>
  }

  /** All keys at all depths are such that the rewrite leaves them alone. */
  ghost predicate Processed(lower: char -> string, j: Json)
    decreases j
  {
    match j
    case Array(items) => forall i :: 0 <= i < |items| ==> Processed(lower, items[i])
    case Object(es) =>
      forall i :: 0 <= i < |es| ==> KeyStays(lower, es[i].key) && Processed(lower, es[i].value)
    case _ => true
  }

  lemma InsertNew(es: seq<Entry>, key: string, value: Json)
    requires forall k :: 0 <= k < |es| ==> es[k].key != key
    ensures Insert(es, key, value) == es + [Entry(key, value)]
  {
  }

  lemma {:induction false} EntriesFixed(lower: char -> string, j: Json, n: nat)
    requires j.Object? && n <= |j.entries| && DistinctKeys(j.entries)
    requires forall i :: 0 <= i < n ==> ProcessKey(lower, j.entries[i].key) == j.entries[i].key && Convert(lower, j.entries[i].value) == j.entries[i].value
    ensures ConvertEntries(lower, j, n) == j.entries[..n]
  {
    hide Convert, ProcessKey, Insert;
    if n > 0 {
      EntriesFixed(lower, j, n - 1);
      var front := j.entries[..n - 1];
      var e := j.entries[n - 1];
      InsertNew(front, e.key, e.value);
      assert j.entries[..n] == front + [e];
    }
  }

  lemma {:induction false} ItemsFixed(lower: char -> string, j: Json, n: nat)
    requires j.Array? && n <= |j.items| && forall i :: 0 <= i < n ==> Convert(lower, j.items[i]) == j.items[i]
    ensures ConvertItems(lower, j, n) == j.items[..n]
  {
    if n > 0 {
      ItemsFixed(lower, j, n - 1);
      assert j.items[..n] == j.items[..n - 1] + [j.items[n - 1]];
    }
  }

  lemma {:induction false} ProcessedIsFixed(lower: char -> string, j: Json)
    requires WellFormed(j) && Processed(lower, j)
    ensures Convert(lower, j) == j
    decreases j
  {
    match j
    case Array(items) =>
      forall i | 0 <= i < |items| ensures Convert(lower, items[i]) == items[i] {
        ProcessedIsFixed(lower, items[i]);
      }
      ItemsFixed(lower, j, |items|);
    case Object(es) =>
      forall i | 0 <= i < |es| ensures ProcessKey(lower, es[i].key) == es[i].key && Convert(lower, es[i].value) == es[i].value {
        StaysExactly(lower, es[i].key);
        ProcessedIsFixed(lower, es[i].value);
      }
      EntriesFixed(lower, j, |es|);
    case _ =>
  }

  lemma {:induction false} ResultIsProcessed(lower: char -> string, j: Json)
    requires LowerTable(lower)
    ensures WellFormed(Convert(lower, j)) && Processed(lower, Convert(lower, j))
    decreases j
  {
    match j
    case Array(items) =>
      var r := Convert(lower, j).items;
      forall i | 0 <= i < |r| ensures WellFormed(r[i]) && Processed(lower, r[i]) {
        ItemsAt(lower, j, |items|, i);
        ResultIsProcessed(lower, items[i]);
      }
    case Object(es) =>
      EntriesDistinct(lower, j, |es|);
      var r := Convert(lower, j).entries;
      forall i | 0 <= i < |r| ensures KeyStays(lower, r[i].key) && WellFormed(r[i].value) && Processed(lower, r[i].value) {
        assert r[i] in r;
        var k := EntryFrom(lower, j, |es|, r[i]);
        ProcessKeyTwice(lower, es[k].key);
        StaysExactly(lower, r[i].key);
        ResultIsProcessed(lower, es[k].value);
      }
    case _ =>
  }

  /** Rewriting twice is rewriting once. */
  lemma Idempotent(lower: char -> string, j: Json)
    requires LowerTable(lower)
    ensures Convert(lower, Convert(lower, j)) == Convert(lower, j)
  {
    ResultIsProcessed(lower, j);
    ProcessedIsFixed(lower, Convert(lower, j));
  }

  /** A value is left alone exactly when each key, at any depth, starts with its own lower case and is no other spelling of "ssn". */
  lemma UnchangedExactly(lower: char -> string, j: Json)
    requires LowerTable(lower) && WellFormed(j)
    ensures Convert(lower, j) == j <==> Processed(lower, j)
  {
    if Processed(lower, j) {
      ProcessedIsFixed(lower, j);
    }
    ResultIsProcessed(lower, j);
  }

  // ---------- leaves ----------

  predicate Leaf(j: Json) { !j.Array? && !j.Object? }

  /** A value that is not an array or object, somewhere inside. */
  ghost predicate HasLeaf(j: Json, leaf: Json)
    decreases j
  {
    match j
    case Array(items) => exists i :: 0 <= i < |items| && HasLeaf(items[i], leaf)
    case Object(es) => exists i :: 0 <= i < |es| && HasLeaf(es[i].value, leaf)
    case _ => j == leaf
  }

  /** Every leaf of the result is, unchanged, a leaf of the source. */
  lemma {:induction false} LeavesKept(lower: char -> string, j: Json, leaf: Json)
    requires HasLeaf(Convert(lower, j), leaf)
    ensures HasLeaf(j, leaf)
    decreases j
  {
    match j
    case Array(items) =>
      var i :| 0 <= i < |items| && HasLeaf(Convert(lower, j).items[i], leaf);
      ItemsAt(lower, j, |items|, i);
      LeavesKept(lower, items[i], leaf);
    case Object(es) =>
      var r := Convert(lower, j).entries;
      var i :| 0 <= i < |r| && HasLeaf(r[i].value, leaf);
      assert r[i] in r;
      var k := EntryFrom(lower, j, |es|, r[i]);
      LeavesKept(lower, es[k].value, leaf);
    case _ =>
  }

  /** Keys of one object stay different. */
  ghost predicate KeysStayApart(lower: char -> string, j: Json)
    decreases j
  {
    match j
    case Array(items) => forall i :: 0 <= i < |items| ==> KeysStayApart(lower, items[i])
    case Object(es) =>
      && (forall i, k :: 0 <= i < k < |es| ==> ProcessKey(lower, es[i].key) != ProcessKey(lower, es[k].key))
      && forall i :: 0 <= i < |es| ==> KeysStayApart(lower, es[i].value)
    case _ => true
  }

  /** No leaf is lost when no two keys of an object fall together. */
  lemma {:induction false} LeavesAllKept(lower: char -> string, j: Json, leaf: Json)
    requires KeysStayApart(lower, j) && HasLeaf(j, leaf)
    ensures HasLeaf(Convert(lower, j), leaf)
    decreases j
  {
    match j
    case Array(items) =>
      var i :| 0 <= i < |items| && HasLeaf(items[i], leaf);
      LeavesAllKept(lower, items[i], leaf);
      ItemsAt(lower, j, |items|, i);
      assert HasLeaf(Convert(lower, j).items[i], leaf);
    case Object(es) =>
      var k :| 0 <= k < |es| && HasLeaf(es[k].value, leaf);
      LeavesAllKept(lower, es[k].value, leaf);
      var e := Entry(ProcessKey(lower, es[k].key), Convert(lower, es[k].value));
      assert ComesFrom(lower, j, |es|, e, k);
      EntryInto(lower, j, |es|, e, k);
      var r := Convert(lower, j).entries;
      var i :| 0 <= i < |r| && r[i] == e;
      assert HasLeaf(r[i].value, leaf);
    case _ =>
  }

  // ---------- raw repetitions ----------

  /** Members with different keys are collected as they stand, so reading and rewriting agree on them. */
  lemma {:induction false} CollectedDistinct(raw: seq<Entry>)
    requires DistinctKeys(raw)
    ensures Collected(raw) == raw
  {
    if raw != [] {
      var n := |raw| - 1;
      var front, e := raw[..n], raw[n];
      CollectedDistinct(front);
      CollectedLast(raw);
      hide Collected, Insert;
      InsertNew(front, e.key, e.value);
      assert raw == front + [e];
    }
  }

  // ---------- reading against parsing and rewriting ----------

  function KeysOf(es: seq<Entry>): (ks: seq<string>)
    ensures |ks| == |es|
  {
    seq(|es|, i requires 0 <= i < |es| => es[i].key)
  }

  /** The different keys in the order of their first occurrences. */
  function KeyOrder(ks: seq<string>): (r: seq<string>)
    ensures forall k :: k in r <==> k in ks
    ensures forall i, j :: 0 <= i < j < |r| ==> r[i] != r[j]
  {
    if ks == [] then [] else
    var n := |ks| - 1;
    assert ks == ks[..n] + [ks[n]];
    var front := KeyOrder(ks[..n]);
    if ks[n] in front then front else front + [ks[n]]
  }

  function LastIndex(ks: seq<string>, key: string): (i: nat)
    requires key in ks
    ensures i < |ks| && ks[i] == key && forall j :: i < j < |ks| ==> ks[j] != key
  {
    var n := |ks| - 1;
    if ks[n] == key then n else LastIndex(ks[..n], key)
  }

  lemma LastIndexUnique(ks: seq<string>, key: string, i: nat)
    requires i < |ks| && ks[i] == key && forall j :: i < j < |ks| ==> ks[j] != key
    ensures key in ks && LastIndex(ks, key) == i
  {
    var k := LastIndex(ks, key);
    assert !(k < i) && !(i < k);
  }

  lemma KeyOrderSnoc(ks: seq<string>, k: string)
    ensures KeyOrder(ks + [k]) == if k in KeyOrder(ks) then KeyOrder(ks) else KeyOrder(ks) + [k]
  {
    assert (ks + [k])[..|ks|] == ks;
  }

  lemma IndexOfIff(es: seq<Entry>, key: string)
    ensures IndexOf(es, key) >= 0 <==> key in KeysOf(es)
  {
    var at := IndexOf(es, key);
    if at >= 0 {
      assert KeysOf(es)[at] == key;
    }
  }

  /** Insertion changes the keys as first occurrences demand. */
  lemma InsertKeys(es: seq<Entry>, key: string, value: Json)
    ensures KeysOf(Insert(es, key, value)) == if key in KeysOf(es) then KeysOf(es) else KeysOf(es) + [key]
  {
    IndexOfIff(es, key);
  }

  /** Collecting, in closed form: each key once, in the order of first occurrence, with its last value. */
  ghost predicate Summarizes(es: seq<Entry>, raw: seq<Entry>) {
    var ks := KeysOf(raw);
    && KeysOf(es) == KeyOrder(ks)
    && forall i :: 0 <= i < |es| ==> es[i].key in ks && es[i].value == raw[LastIndex(ks, es[i].key)].value
  }

  lemma InsertedValues(es: seq<Entry>, key: string, value: Json, i: nat)
    requires DistinctKeys(es) && i < |Insert(es, key, value)|
    ensures var r := Insert(es, key, value);
      if r[i].key == key then r[i].value == value else i < |es| && r[i] == es[i]
  {
  }

  lemma KeysDistinct(es: seq<Entry>, ks: seq<string>)
    requires KeysOf(es) == KeyOrder(ks)
    ensures DistinctKeys(es)
  {
    forall i, j | 0 <= i < j < |es| ensures es[i].key != es[j].key {
      assert KeysOf(es)[i] != KeysOf(es)[j];
    }
  }

  lemma LastIndexSnoc(ks: seq<string>, k: string, key: string)
    requires key == k || key in ks
    ensures key in ks + [k] && LastIndex(ks + [k], key) == if key == k then |ks| else LastIndex(ks, key)
  {
    LastIndexUnique(ks + [k], key, if key == k then |ks| else LastIndex(ks, key));
  }

  lemma SummaryStep(es: seq<Entry>, raw: seq<Entry>, e: Entry)
    requires Summarizes(es, raw)
    ensures Summarizes(Insert(es, e.key, e.value), raw + [e])
  {
    hide Insert, KeyOrder, LastIndex;
    var ks := KeysOf(raw);
    assert KeysOf(raw + [e]) == ks + [e.key];
    KeyOrderSnoc(ks, e.key);
    InsertKeys(es, e.key, e.value);
    KeysDistinct(es, ks);
    var r := Insert(es, e.key, e.value);
    forall i | 0 <= i < |r|
      ensures r[i].key in ks + [e.key] && r[i].value == (raw + [e])[LastIndex(ks + [e.key], r[i].key)].value
    {
      InsertedValues(es, e.key, e.value, i);
      LastIndexSnoc(ks, e.key, r[i].key);
    }
  }

  lemma {:induction false} CollectedSummary(raw: seq<Entry>)
    ensures Summarizes(Collected(raw), raw)
  {
    if raw != [] {
      var n := |raw| - 1;
      CollectedSummary(raw[..n]);
      SummaryStep(Collected(raw[..n]), raw[..n], raw[n]);
      assert raw == raw[..n] + [raw[n]];
    }
  }

  function ProcessAll(lower: char -> string, ks: seq<string>): (r: seq<string>)
    ensures |r| == |ks|
  {
    seq(|ks|, i requires 0 <= i < |ks| => ProcessKey(lower, ks[i]))
  }

  lemma ProcessAllSnoc(lower: char -> string, ks: seq<string>, k: string)
    ensures ProcessAll(lower, ks + [k]) == ProcessAll(lower, ks) + [ProcessKey(lower, k)]
    ensures k in ks ==> ProcessKey(lower, k) in ProcessAll(lower, ks)
  {
    hide ProcessKey;
    if k in ks {
      var i :| 0 <= i < |ks| && ks[i] == k;
      assert ProcessAll(lower, ks)[i] == ProcessKey(lower, k);
    }
  }

  lemma NoKeys()
    ensures KeyOrder([]) == []
  {
  }

  lemma {:induction false} KeyOrderProcessed(lower: char -> string, ks: seq<string>)
    ensures KeyOrder(ProcessAll(lower, KeyOrder(ks))) == KeyOrder(ProcessAll(lower, ks))
  {
    hide ProcessKey, ProcessAll, KeyOrder;
    if ks == [] {
      NoKeys();
    } else {
      var n := |ks| - 1;
      var front, k := ks[..n], ks[n];
      var p := ProcessKey(lower, k);
      KeyOrderProcessed(lower, front);
      assert ks == front + [k];
      KeyOrderSnoc(front, k);
      ProcessAllSnoc(lower, front, k);
      KeyOrderSnoc(ProcessAll(lower, front), p);
      ProcessAllSnoc(lower, KeyOrder(front), k);
      KeyOrderSnoc(ProcessAll(lower, KeyOrder(front)), p);
    }
  }

  /** Where reading finds the value of a processed key: at its last member. */
  function ReadIndex(lower: char -> string, ks: seq<string>, p: string): (i: nat)
    requires p in ProcessAll(lower, ks)
    ensures i < |ks|
  {
    LastIndex(ProcessAll(lower, ks), p)
  }

  /** Where parsing and then rewriting finds it: at the last member spelled as the spelling that came up latest. */
  function ParsedIndex(lower: char -> string, ks: seq<string>, p: string): (i: nat)
    requires p in ProcessAll(lower, ks)
    ensures i < |ks|
  {
    KeyOrderProcessed(lower, ks);
    var spellings := KeyOrder(ks);
    assert p in KeyOrder(ProcessAll(lower, spellings));
    LastIndex(ks, spellings[LastIndex(ProcessAll(lower, spellings), p)])
  }

  lemma ReadSide(lower: char -> string, raw: seq<Entry>)
    ensures var r := Convert(lower, Object(raw)).entries;
      var ps := ProcessAll(lower, KeysOf(raw));
      && KeysOf(r) == KeyOrder(ps)
      && forall i :: 0 <= i < |r| ==> r[i].key in ps && r[i].value == Convert(lower, raw[ReadIndex(lower, KeysOf(raw), r[i].key)].value)
  {
    hide Summarizes, KeyOrder, LastIndex, ProcessKey, Collected;
    var w := Rewritten(lower, raw);
    ConvertCollects(lower, raw, |raw|);
    assert w[..|raw|] == w;
    CollectedSummary(w);
    assert KeysOf(w) == ProcessAll(lower, KeysOf(raw));
    SummaryFacts(Collected(w), w);
  }

  lemma SummaryFacts(es: seq<Entry>, raw: seq<Entry>)
    requires Summarizes(es, raw)
    ensures KeysOf(es) == KeyOrder(KeysOf(raw))
    ensures forall i :: 0 <= i < |es| ==> es[i].key in KeysOf(raw) && es[i].value == raw[LastIndex(KeysOf(raw), es[i].key)].value
  {
  }

  lemma StaysObject(lower: char -> string, es: seq<Entry>)
    ensures Convert(lower, Object(es)).Object?
  {
  }

  lemma ParsedSide(lower: char -> string, raw: seq<Entry>)
    ensures var r := Convert(lower, Object(Collected(raw))).entries;
      var ps := ProcessAll(lower, KeysOf(raw));
      && KeysOf(r) == KeyOrder(ps)
      && forall i :: 0 <= i < |r| ==> r[i].key in ps && r[i].value == Convert(lower, raw[ParsedIndex(lower, KeysOf(raw), r[i].key)].value)
  {
    hide Summarizes, KeyOrder, LastIndex, ProcessKey, Collected, Convert;
    var es, ks := Collected(raw), KeysOf(raw);
    CollectedSummary(raw);
    SummaryFacts(es, raw);
    ReadSide(lower, es);
    StaysObject(lower, es);
    KeyOrderProcessed(lower, ks);
    var r := Convert(lower, Object(es)).entries;
    forall i | 0 <= i < |r|
      ensures r[i].key in ProcessAll(lower, ks) && r[i].value == Convert(lower, raw[ParsedIndex(lower, ks, r[i].key)].value)
    {
      assert KeysOf(r)[i] in KeyOrder(ProcessAll(lower, ks));
      var k := ReadIndex(lower, KeysOf(es), r[i].key);
      assert KeysOf(es)[k] == es[k].key;
    }
  }

  lemma SameEntries(a: seq<Entry>, b: seq<Entry>)
    requires KeysOf(a) == KeysOf(b)
    ensures a == b <==> forall i :: 0 <= i < |a| ==> a[i].value == b[i].value
  {
    if forall i :: 0 <= i < |a| ==> a[i].value == b[i].value {
      forall i | 0 <= i < |a| ensures a[i] == b[i] {
        assert KeysOf(a)[i] == KeysOf(b)[i];
      }
    }
  }

  /**
    For every text: reading an object and rewriting the parsed object give the
    same result, members and order, exactly when for each processed key the
    two members they take its value from convert to the same value.
   */
  lemma ReadingAgrees(lower: char -> string, raw: seq<Entry>)
    ensures Convert(lower, Object(raw)) == Convert(lower, Object(Collected(raw))) <==>
      forall p :: p in ProcessAll(lower, KeysOf(raw)) ==>
        Convert(lower, raw[ReadIndex(lower, KeysOf(raw), p)].value) == Convert(lower, raw[ParsedIndex(lower, KeysOf(raw), p)].value)
  {
    hide Collected, KeyOrder, LastIndex, ReadIndex, ParsedIndex, ProcessKey;
    ReadSide(lower, raw);
    ParsedSide(lower, raw);
    var x, y := Convert(lower, Object(raw)).entries, Convert(lower, Object(Collected(raw))).entries;
    var ps := ProcessAll(lower, KeysOf(raw));
    SameEntries(x, y);
    forall i | 0 <= i < |x| ensures x[i].key == y[i].key {
      assert KeysOf(x)[i] == KeysOf(y)[i];
    }
    if x == y {
      forall p | p in ps
        ensures Convert(lower, raw[ReadIndex(lower, KeysOf(raw), p)].value) == Convert(lower, raw[ParsedIndex(lower, KeysOf(raw), p)].value)
      {
        assert p in KeyOrder(ps);
        var i :| 0 <= i < |x| && KeysOf(x)[i] == p;
        assert x[i].key == p;
      }
    }
  }

  /** Some members with the given keys are read otherwise than they are parsed and rewritten. */
  ghost predicate KeysMatter(lower: char -> string, ks: seq<string>) {
    exists raw: seq<Entry> :: KeysOf(raw) == ks && Convert(lower, Object(raw)) != Convert(lower, Object(Collected(raw)))
  }

  /**
    On the keys alone: reading agrees with parsing and rewriting whatever the
    values are exactly when, for each processed key, the spelling used last is
    the one that came up latest.
   */
  lemma KeysDecide(lower: char -> string, ks: seq<string>)
    ensures !KeysMatter(lower, ks) <==>
      forall p :: p in ProcessAll(lower, ks) ==> ReadIndex(lower, ks, p) == ParsedIndex(lower, ks, p)
  {
    hide Collected, KeyOrder, LastIndex, ReadIndex, ParsedIndex, ProcessKey, Convert;
    forall raw: seq<Entry> | KeysOf(raw) == ks
      && (forall p :: p in ProcessAll(lower, ks) ==> ReadIndex(lower, ks, p) == ParsedIndex(lower, ks, p))
      ensures Convert(lower, Object(raw)) == Convert(lower, Object(Collected(raw)))
    {
      ReadingAgrees(lower, raw);
    }
    if p :| p in ProcessAll(lower, ks) && ReadIndex(lower, ks, p) != ParsedIndex(lower, ks, p) {
      var k := ReadIndex(lower, ks, p);
      var raw := Marked(ks, k);
      MarkedValues(lower, ks, k);
      ReadingAgrees(lower, raw);
      assert KeysOf(raw) == ks;
    }
  }

  /** Members with the given keys of which one has a value of its own. */
  function Marked(ks: seq<string>, k: nat): (r: seq<Entry>)
    ensures |r| == |ks|
  {
    seq(|ks|, i requires 0 <= i < |ks| => Entry(ks[i], Bool(i == k)))
  }

  lemma MarkedValues(lower: char -> string, ks: seq<string>, k: nat)
    ensures KeysOf(Marked(ks, k)) == ks
    ensures forall i :: 0 <= i < |ks| ==> Convert(lower, Marked(ks, k)[i].value) == Bool(i == k)
  {
  }

  /** No two spellings of one processed key. */
  ghost predicate OneSpelling(lower: char -> string, ks: seq<string>) {
    forall i, j :: 0 <= i < |ks| && 0 <= j < |ks| && ProcessKey(lower, ks[i]) == ProcessKey(lower, ks[j]) ==> ks[i] == ks[j]
  }

  lemma OneSpellingIndex(lower: char -> string, ks: seq<string>, p: string)
    requires OneSpelling(lower, ks) && p in ProcessAll(lower, ks)
    ensures ReadIndex(lower, ks, p) == ParsedIndex(lower, ks, p)
  {
    hide KeyOrder, LastIndex, ProcessKey;
    var k := ReadIndex(lower, ks, p);
    var spellings := KeyOrder(ks);
    KeyOrderProcessed(lower, ks);
    assert p in KeyOrder(ProcessAll(lower, spellings));
    var s := spellings[LastIndex(ProcessAll(lower, spellings), p)];
    assert ProcessKey(lower, s) == p && ProcessKey(lower, ks[k]) == p;
    assert s in spellings && s in ks;
    var i :| 0 <= i < |ks| && ks[i] == s;
    assert ks[i] == ks[k];
    forall j | k < j < |ks| ensures ks[j] != s {
      assert ProcessAll(lower, ks)[j] != p;
    }
    LastIndexUnique(ks, s, k);
  }

  /** In particular a text may repeat keys freely as long as it spells each of them in one way. */
  lemma OneSpellingAgrees(lower: char -> string, raw: seq<Entry>)
    requires OneSpelling(lower, KeysOf(raw))
    ensures Convert(lower, Object(raw)) == Convert(lower, Object(Collected(raw)))
  {
    hide Collected, Convert, ReadIndex, ParsedIndex, OneSpelling, ProcessAll;
    forall p | p in ProcessAll(lower, KeysOf(raw)) ensures ReadIndex(lower, KeysOf(raw), p) == ParsedIndex(lower, KeysOf(raw), p) {
      OneSpellingIndex(lower, KeysOf(raw), p);
    }
    ReadingAgrees(lower, raw);
  }

  /** Three members as a text delivers them, and the object a parser makes of them. */
  const RAW: seq<Entry> := [Entry("a", Bool(true)), Entry("A", Null), Entry("a", Bool(false))]
  const PARSED: seq<Entry> := [Entry("a", Bool(false)), Entry("A", Null)]

  lemma RawIsParsed()
    ensures Collected(RAW) == PARSED
  {
    hide IndexOf;
    var two := [Entry("a", Bool(true)), Entry("A", Null)];
    CollectedDistinct(two);
    assert RAW[..2] == two;
    assert two[0].key == "a" && two[1].key == "A";
    assert IndexOf(two, "a") == 0;
    hide Collected;
    CollectedLast(RAW);
    assert two[0 := Entry("a", Bool(false))] == PARSED;
  }

  /** A text that repeats a key around another spelling of it reads differently from its parsed value. */
  lemma RepetitionDiffers(lower: char -> string)
    requires LowerTable(lower)
    ensures Convert(lower, Object(RAW)) != Convert(lower, Object(Collected(RAW)))
  {
    hide Convert, ProcessKey, Collected;
    RawIsParsed();
    SpellingsOfA(lower);
    var x, y := Convert(lower, Object(RAW)), Convert(lower, Object(PARSED));
    var e, f := Entry("a", Bool(false)), Entry("a", Null);
    LeafOf(lower, Bool(false));
    LeafOf(lower, Null);
    assert ComesFrom(lower, Object(RAW), 3, e, 2);
    assert ComesFrom(lower, Object(PARSED), 2, f, 1);
    ObjectExact(lower, RAW);
    ObjectExact(lower, PARSED);
    assert e in x.entries && f in y.entries;
    if x == y {
      SameKeySameEntry(x.entries, e, f);
    }
  }

  lemma LeafOf(lower: char -> string, j: Json)
    requires Leaf(j)
    ensures Convert(lower, j) == j
  {
  }

  lemma SameKeySameEntry(es: seq<Entry>, e: Entry, f: Entry)
    requires DistinctKeys(es) && e in es && f in es && e.key == f.key
    ensures e == f
  {
    var i :| 0 <= i < |es| && es[i] == e;
    var k :| 0 <= k < |es| && es[k] == f;
    assert i == k;
  }

  lemma SpellingsOfA(lower: char -> string)
    requires LowerTable(lower)
    ensures ProcessKey(lower, "a") == "a" && ProcessKey(lower, "A") == "a"
  {
    assert lower('A') == "a" && 'a' in lower('A');
    SingleKey(lower, "a");
    SingleKey(lower, "A");
  }

  lemma SingleKey(lower: char -> string, s: string)
    requires |s| == 1 && LowerTable(lower) && lower(s[0]) == "a"
    ensures ProcessKey(lower, s) == "a"
  {
    assert Lowered(lower, s[1..]) == "";
    assert Lowered(lower, s) == "a";
    assert LowerFirst(lower, s) == "a" + s[1..];
  }
}
