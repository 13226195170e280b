/**
 * Counting with a plain JavaScript object (`acc[key] = (acc[key] || 0) + 1`) and listing the result
 * with `Object.entries(...).sort((a, b) => b.count - a.count)`, as the category page and the tag
 * cloud do.
 */
module Tally {
  import opened Strings
  import opened Seqs
  import opened Sorting

  /** One `[key, count]` pair of `Object.entries`. */
  datatype Entry = Entry(key: string, count: nat)

  /**
   * An array index: the canonical decimal form of an integer below 2^32 - 1. Objects list such keys
   * first, in increasing numeric order, before all other keys in insertion order (ECMA-262,
   * section 10.1.11.1, OrdinaryOwnPropertyKeys).
   */
  predicate IsArrayIndex(k: string) {
    && k != []
    && (forall i :: 0 <= i < |k| ==> IsDecimalDigit(k[i]))
    && (k[0] != '0' || |k| == 1)
    && DecimalValue(k) < 0xFFFF_FFFF
  }

  predicate NotArrayIndex(k: string) {
    !IsArrayIndex(k)
  }

  function IndexValue(k: string): nat {
    if IsArrayIndex(k) then DecimalValue(k) else 0
  }

  function ByIndexValue(): (string, string) -> bool {
    (a: string, b: string) => IndexValue(a) <= IndexValue(b)
  }

  /** The key order of `Object.entries` for an object whose keys were created in `order`. */
  function OwnKeys(order: seq<string>): (r: seq<string>)
    ensures multiset(r) == multiset(order)
    ensures |r| == |order|
  {
    FilterPartition(order, IsArrayIndex, NotArrayIndex);
    assert |multiset(order)| == |order|;
    Sort(Filter(order, IsArrayIndex), ByIndexValue()) + Filter(order, NotArrayIndex)
  }

  /** How often each key occurs in `keys`. */
  function CountIn(keys: seq<string>): string -> nat {
    (k: string) => multiset(keys)[k]
  }

  /** `acc[key] = (acc[key] || 0) + 1`. */
  function Add(counts: map<string, nat>, key: string): map<string, nat> {
    counts[key := (if key in counts then counts[key] else 0) + 1]
  }

  /** The object that counting `keys` one by one builds. */
  function CountMap(keys: seq<string>): map<string, nat> {
    if keys == [] then map[] else Add(CountMap(keys[..|keys| - 1]), keys[|keys| - 1])
  }

  /** The object holds exactly the keys counted, each with its number of occurrences. */
  lemma {:induction false} CountMapExact(keys: seq<string>)
    ensures forall k :: k in CountMap(keys) <==> k in keys
    ensures forall k :: k in CountMap(keys) ==> CountMap(keys)[k] == multiset(keys)[k]
  {
    if keys != [] {
      var pre, x := keys[..|keys| - 1], keys[|keys| - 1];
      CountMapExact(pre);
      assert keys == pre + [x];
      assert multiset(keys) == multiset(pre) + multiset{x};
    }
  }

  /** `counts`, with its keys created in `order`, is the tally of `keys`. */
  predicate Tallies(counts: map<string, nat>, order: seq<string>, keys: seq<string>) {
    order == Dedup(keys) && counts == CountMap(keys)
  }

  /** Counting one more key keeps the tally exact; a key seen for the first time is appended to the order. */
  lemma {:induction false} AddKeepsTally(counts: map<string, nat>, order: seq<string>, keys: seq<string>, key: string)
    requires Tallies(counts, order, keys)
    ensures Tallies(Add(counts, key), if key in counts then order else order + [key], keys + [key])
  {
    var keys' := keys + [key];
    assert keys'[..|keys'| - 1] == keys;
    CountMapExact(keys);
    assert key in Dedup(keys) <==> key in keys;
  }

  /**
   * `acc[key] = (acc[key] || 0) + 1` on an object whose keys were created in `order`: counting one more
   * key keeps the tally exact.
   */
  method CountOne(counts0: map<string, nat>, order0: seq<string>, ghost seen: seq<string>, key: string)
    returns (counts: map<string, nat>, order: seq<string>)
    requires Tallies(counts0, order0, seen)
    ensures Tallies(counts, order, seen + [key])
  {
    AddKeepsTally(counts0, order0, seen, key);
    order := if key in counts0 then order0 else order0 + [key];
    counts := Add(counts0, key);
  }

  /** The entries of a tally, in key order. */
  function EntriesOf(counts: map<string, nat>, order: seq<string>): seq<Entry> {
    Map(OwnKeys(order), (k: string) => Entry(k, if k in counts then counts[k] else 0))
  }

  /** The entries that counting `keys` produces. */
  function TallyOf(keys: seq<string>): seq<Entry> {
    Map(OwnKeys(Dedup(keys)), (k: string) => Entry(k, CountIn(keys)(k)))
  }

  lemma {:induction false} EntriesOfTally(counts: map<string, nat>, order: seq<string>, keys: seq<string>)
    requires Tallies(counts, order, keys)
    ensures EntriesOf(counts, order) == TallyOf(keys)
  {
    var ks := OwnKeys(order);
    CountMapExact(keys);
    var f := (k: string) => Entry(k, if k in counts then counts[k] else 0);
    var g := (k: string) => Entry(k, CountIn(keys)(k));
    PermutationMembers(order, ks);
    forall i | 0 <= i < |ks|
      ensures f(ks[i]) == g(ks[i])
    {
      var k := ks[i];
      assert k in keys;
      assert k in counts && counts[k] == multiset(keys)[k];
      assert CountIn(keys)(k) == multiset(keys)[k];
    }
    assert Map(ks, f) == Map(ks, g);
  }

  function ByCountDescending(): (Entry, Entry) -> bool {
    (a: Entry, b: Entry) => a.count >= b.count
  }

  lemma ByCountDescendingIsTotal()
    ensures IsTotalPreorder(ByCountDescending())
  {
  }

  /** The tally of `keys`, largest count first; ties keep the key order. */
  function Ranked(keys: seq<string>): seq<Entry> {
    Sort(TallyOf(keys), ByCountDescending())
  }

  function KeyOf(e: Entry): string {
    e.key
  }

  function CountOf(e: Entry): nat {
    e.count
  }

  /** Sorting the entries of a finished tally gives the ranking. */
  lemma RankTally(counts: map<string, nat>, order: seq<string>, keys: seq<string>)
    requires Tallies(counts, order, keys)
    ensures Sort(EntriesOf(counts, order), ByCountDescending()) == Ranked(keys)
  {
    EntriesOfTally(counts, order, keys);
  }

  /** The ranking is ordered by count, largest first. */
  lemma RankedSorted(keys: seq<string>)
    ensures Sorted(Ranked(keys), ByCountDescending())
  {
    ByCountDescendingIsTotal();
    SortSorted(TallyOf(keys), ByCountDescending());
  }

  /** Keys used equally often keep the order of the tally (the order `Object.entries` lists them in). */
  lemma RankedTiesInEntryOrder(keys: seq<string>, e: Entry)
    requires e in TallyOf(keys)
    ensures Ties(Ranked(keys), ByCountDescending(), e) == Ties(TallyOf(keys), ByCountDescending(), e)
  {
    ByCountDescendingIsTotal();
    TotalPreorderOn(multiset(TallyOf(keys)) + multiset{e}, ByCountDescending());
    SortStable(TallyOf(keys), ByCountDescending(), e);
  }

  /** Every counted key is listed exactly once, and nothing else is listed. */
  lemma {:induction false} RankedKeysOnce(keys: seq<string>)
    ensures Distinct(Map(Ranked(keys), KeyOf))
    ensures forall k :: k in keys <==> k in Map(Ranked(keys), KeyOf)
  {
    var d := Dedup(keys);
    var t := TallyOf(keys);
    var r := Ranked(keys);
    assert Map(t, KeyOf) == OwnKeys(d);
    DistinctPermutation(d, OwnKeys(d));
    MapPermutation(t, r, KeyOf);
    DistinctPermutation(Map(t, KeyOf), Map(r, KeyOf));
    forall k
      ensures k in keys <==> k in Map(r, KeyOf)
    {
      calc {
        k in keys;
        k in d;
        k in multiset(OwnKeys(d));
        k in multiset(Map(t, KeyOf));
        k in multiset(Map(r, KeyOf));
      }
    }
  }

  /** Each listed count is the number of occurrences of its key, hence at least 1. */
  lemma {:induction false} RankedCounts(keys: seq<string>)
    ensures forall i :: 0 <= i < |Ranked(keys)| ==>
      Ranked(keys)[i].count == multiset(keys)[Ranked(keys)[i].key] >= 1
  {
    var t := TallyOf(keys);
    var r := Ranked(keys);
    TallyCounts(keys);
    forall i | 0 <= i < |r|
      ensures r[i].count == multiset(keys)[r[i].key] >= 1
    {
      assert r[i] in multiset(r);
      assert r[i] in t;
    }
  }

  lemma TallyCounts(keys: seq<string>)
    ensures forall e :: e in TallyOf(keys) ==> e.count == multiset(keys)[e.key] >= 1
  {
    var d := Dedup(keys);
    var ks := OwnKeys(d);
    var t := TallyOf(keys);
    PermutationMembers(d, ks);
    forall j | 0 <= j < |t|
      ensures t[j].count == multiset(keys)[t[j].key] >= 1
    {
      assert ks[j] in d;
      CountedKey(keys, ks[j], t[j]);
    }
    EntryIndices(t, keys);
  }

  /** The entry made for a key that occurs in `keys` holds its number of occurrences. */
  lemma CountedKey(keys: seq<string>, k: string, e: Entry)
    requires k in keys && e == Entry(k, CountIn(keys)(k))
    ensures e.count == multiset(keys)[e.key] >= 1
  {
  }

  lemma EntryIndices(t: seq<Entry>, keys: seq<string>)
    requires forall j :: 0 <= j < |t| ==> t[j].count == multiset(keys)[t[j].key] >= 1
    ensures forall e :: e in t ==> e.count == multiset(keys)[e.key] >= 1
  {
  }

  /** The counts add up to the number of keys counted. */
  lemma {:induction false} RankedSum(keys: seq<string>)
    ensures SumOf(Ranked(keys), CountOf) == |keys|
  {
    var d := Dedup(keys);
    var t := TallyOf(keys);
    SumOfPermutation(t, Ranked(keys), CountOf);
    SumOfMap(OwnKeys(d), (k: string) => Entry(k, CountIn(keys)(k)), CountOf, CountIn(keys));
    SumOfPermutation(OwnKeys(d), d, CountIn(keys));
    DedupSum(keys);
  }

  lemma {:induction false} SumOfMap<A, B>(s: seq<A>, f: A -> B, g: B -> nat, h: A -> nat)
    requires forall x :: h(x) == g(f(x))
    ensures SumOf(Map(s, f), g) == SumOf(s, h)
  {
    if s != [] {
      SumOfMap(s[1..], f, g, h);
      assert Map(s, f)[1..] == Map(s[1..], f);
    }
  }

  /** Summing the occurrence counts over the distinct keys counts every key once. */
  lemma {:induction false} DedupSum(keys: seq<string>)
    ensures SumOf(Dedup(keys), CountIn(keys)) == |keys|
  {
    if keys != [] {
      var n := |keys| - 1;
      var pre := keys[..n];
      var x := keys[n];
      var d := Dedup(pre);
      DedupSum(pre);
      assert keys == pre + [x];
      forall y ensures CountIn(keys)(y) == CountIn(pre)(y) + (if y == x then 1 else 0) {
        assert multiset(keys) == multiset(pre) + multiset{x};
      }
      if x in d {
        SumOfBump(d, CountIn(pre), CountIn(keys), x);
      } else {
        assert x !in pre;
        SumOfAppend(d, [x], CountIn(keys));
        forall i | 0 <= i < |d| ensures CountIn(pre)(d[i]) == CountIn(keys)(d[i]) {
          assert d[i] != x;
        }
        SumOfAgree(d, CountIn(pre), CountIn(keys));
      }
    }
  }

  /** `Math.max(...counts)` of a non-empty list. */
  function MaxCount(entries: seq<Entry>): (m: nat)
    requires entries != []
    ensures forall i :: 0 <= i < |entries| ==> entries[i].count <= m
    ensures exists i :: 0 <= i < |entries| && entries[i].count == m
  {
    if |entries| == 1 then entries[0].count
    else
      var m := MaxCount(entries[1..]);
      assert forall i :: 1 <= i < |entries| ==> entries[i] == entries[1..][i - 1];
      if entries[0].count >= m then entries[0].count else m
  }

  /** In a list sorted largest first, the maximum is the first count. */
  lemma MaxIsFirst(entries: seq<Entry>)
    requires entries != [] && Sorted(entries, ByCountDescending())
    ensures MaxCount(entries) == entries[0].count
  {
  }

  /*
   * Counting into `{}` as written. A plain object inherits the members of `Object.prototype`, so for a
   * key such as "constructor" or "toString" the read `acc[key]` finds an inherited function: it is
   * truthy, and `function + 1` concatenates text. Writing "__proto__" goes to the prototype setter,
   * which ignores a string, so that key never becomes a property at all.
   */

  /** What a property of the counting object holds: a number, or text produced by `+` on a function. */
  datatype Value = Num(n: nat) | Text(s: string)

  /** The methods every plain object inherits from `Object.prototype` (ECMA-262, section 20.1.3). */
  const InheritedNames: set<string> := {
    "constructor", "hasOwnProperty", "isPrototypeOf", "propertyIsEnumerable", "toLocaleString",
    "toString", "valueOf", "__defineGetter__", "__defineSetter__", "__lookupGetter__", "__lookupSetter__"}

  /** `String(f)` for an inherited method `f`. */
  function NativeText(name: string): string {
    "function " + (if name == "constructor" then "Object" else name) + "() { [native code] }"
  }

  /** `x + 1` for what a property holds. */
  function PlusOne(v: Value): Value {
    match v
    case Num(n) => Num(n + 1)
    case Text(s) => Text(s + "1")
  }

  /** `acc[key] = (acc[key] || 0) + 1` with the inherited members of a plain object. */
  function AddAsWritten(obj: map<string, Value>, key: string): map<string, Value> {
    if key in obj then obj[key := PlusOne(obj[key])]
    else if key == ProtoName then obj
    else if key in InheritedNames then obj[key := Text(NativeText(key) + "1")]
    else obj[key := Num(1)]
  }

  function CountAsWritten(keys: seq<string>): map<string, Value> {
    if keys == [] then map[] else AddAsWritten(CountAsWritten(keys[..|keys| - 1]), keys[|keys| - 1])
  }

  /** The count as numbers, as the page and the widget intend it. */
  function AsValues(counts: map<string, nat>): map<string, Value> {
    map k | k in counts :: Num(counts[k])
  }

  predicate Ordinary(key: string) {
    key !in InheritedNames && key != ProtoName
  }

  /** For keys that name nothing inherited, the code as written counts exactly. */
  lemma {:induction false} OrdinaryKeysCountedExactly(keys: seq<string>)
    requires forall i :: 0 <= i < |keys| ==> Ordinary(keys[i])
    ensures CountAsWritten(keys) == AsValues(CountMap(keys))
  {
    if keys != [] {
      var pre, x := keys[..|keys| - 1], keys[|keys| - 1];
      OrdinaryKeysCountedExactly(pre);
      assert Ordinary(x);
    }
  }

  /** One article in category (or with tag) "constructor" is counted as text, and "__proto__" is lost. */
  lemma InheritedKeysMiscounted()
    ensures CountMap(["constructor"]) == map["constructor" := 1]
    ensures CountAsWritten(["constructor"])["constructor"] == Text("function Object() { [native code] }1")
    ensures CountMap([ProtoName]) == map[ProtoName := 1]
    ensures CountAsWritten([ProtoName]) == map[]
  {
    CountSingle("constructor");
    ConstructorAsText();
    CountSingle(ProtoName);
    assert AddAsWritten(map[], ProtoName) == map[];
  }

  /** Counting a single key: the intended count is 1, and the code as written makes one step from `{}`. */
  lemma CountSingle(key: string)
    ensures CountMap([key]) == map[key := 1]
    ensures CountAsWritten([key]) == AddAsWritten(map[], key)
  {
    assert [key][..0] == [];
  }

  lemma ConstructorAsText()
    ensures AddAsWritten(map[], "constructor") == map["constructor" := Text("function Object() { [native code] }1")]
  {
    assert "constructor" != ProtoName;
    assert "constructor" in InheritedNames;
    ObjectText();
  }

  /** The text of the inherited `constructor` (the function `Object`), with "1" appended. */
  lemma ObjectText()
    ensures NativeText("constructor") + "1" == "function Object() { [native code] }1"
  {
    assert NativeText("constructor") == "function " + "Object" + "() { [native code] }";
    assert "function " + "Object" == "function Object";
    assert "function Object" + "() { [native code] }" == "function Object() { [native code] }";
    assert "function Object() { [native code] }" + "1" == "function Object() { [native code] }1";
  }
}
