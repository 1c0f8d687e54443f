/** The collection helpers of `CollectionsUtil`, over immutable values: a
    Java array or list is a `seq`, a `HashSet` a `set`, a `HashMap` a `map`.
    A `null` argument the helper checks for is an `Option`. */
module CollectionsUtil {
  import opened Wrappers
  import opened FailFast
  import opened JavaInteger

  /** `createList(listEntries)`: the entries in the given order; null stays null. */
  function CreateList<T>(listEntries: Option<seq<T>>): (r: Option<seq<T>>)
    ensures r.None? <==> listEntries.None?
    ensures r.Some? ==> |r.value| == |listEntries.value|
    ensures r.Some? ==> forall i :: 0 <= i < |r.value| ==> r.value[i] == listEntries.value[i]
  {
    match listEntries
    case None => None
    case Some(entries) => Some(entries)
  }

  /** The elements of a sequence, duplicates collapsed. */
  function ToSet<T(!new)>(s: seq<T>): (r: set<T>)
    ensures forall x :: x in r <==> x in s
  {
    set x | x in s
  }

  /** No element occurs twice. */
  predicate Distinct<T(==)>(s: seq<T>) {
    forall i, j :: 0 <= i < j < |s| ==> s[i] != s[j]
  }

  /** `createSet(setEntries)`: exactly the given elements; null stays null. */
  function CreateSet<T(!new)>(setEntries: Option<seq<T>>): (r: Option<set<T>>)
    ensures r.None? <==> setEntries.None?
    ensures r.Some? ==> forall x :: x in r.value <==> x in setEntries.value
  {
    match setEntries
    case None => None
    case Some(entries) => Some(ToSet(entries))
  }

  /** `array2Set(array)`: exactly the elements of the array. */
  function Array2Set<T(!new)>(elements: seq<T>): (r: set<T>)
    ensures forall x :: x in r <==> x in elements
    ensures |r| <= |elements|
  {
    ToSetCardinality(elements);
    ToSet(elements)
  }

  /** A set built from a sequence is never larger than it, and is exactly as
      large precisely when no entry repeats. */
  lemma {:induction false} ToSetCardinality<T(!new)>(s: seq<T>)
    ensures |ToSet(s)| <= |s|
    ensures |ToSet(s)| == |s| <==> Distinct(s)
  {
    if |s| == 0 {
      assert ToSet(s) == {};
    } else {
      var tail := s[1..];
      ToSetCardinality(tail);
      assert ToSet(s) == ToSet(tail) + {s[0]};
      if s[0] in tail {
        assert ToSet(s) == ToSet(tail);
        var k :| 0 <= k < |tail| && tail[k] == s[0];
        assert s[0] == s[k + 1];
      } else {
        assert |ToSet(s)| == |ToSet(tail)| + 1;
        if Distinct(tail) {
          forall i, j | 0 <= i < j < |s|
            ensures s[i] != s[j]
          {
            if i > 0 {
              assert s[i] == tail[i - 1] && s[j] == tail[j - 1];
            } else {
              assert s[j] == tail[j - 1];
            }
          }
        } else {
          var i, j :| 0 <= i < j < |tail| && tail[i] == tail[j];
          assert s[i + 1] == s[j + 1];
        }
      }
    }
  }

  /** `createSet` agrees with building the list first and then the set. */
  lemma CreateSetOfCreateList<T(!new)>(entries: Option<seq<T>>)
    ensures CreateSet(entries).Some? <==> CreateList(entries).Some?
    ensures CreateSet(entries).Some? ==> CreateSet(entries).value == Array2Set(CreateList(entries).value)
  {
  }

  /** The key and the value of the `j`-th pair of a flat key/value list. */
  function PairKey<T>(pairs: seq<T>, j: int): T
    requires 0 <= j && 2 * j + 1 < |pairs|
  {
    pairs[2 * j]
  }

  function PairValue<T>(pairs: seq<T>, j: int): T
    requires 0 <= j && 2 * j + 1 < |pairs|
  {
    pairs[2 * j + 1]
  }

  /** No later pair of the list has the same key as pair `j`. */
  predicate IsLastPairWithKey<T(==)>(pairs: seq<T>, j: int)
    requires |pairs| % 2 == 0
    requires 0 <= j < |pairs| / 2
  {
    forall j' :: j < j' < |pairs| / 2 ==> PairKey(pairs, j') != PairKey(pairs, j)
  }

  /** `map.put` of every pair, left to right. */
  function PutPairs<T>(pairs: seq<T>): (m: map<T, T>)
    requires |pairs| % 2 == 0
    ensures forall j :: 0 <= j < |pairs| / 2 ==> PairKey(pairs, j) in m
    ensures forall k :: k in m ==> exists j :: 0 <= j < |pairs| / 2 && PairKey(pairs, j) == k
    ensures forall j :: 0 <= j < |pairs| / 2 && IsLastPairWithKey(pairs, j) ==>
              m[PairKey(pairs, j)] == PairValue(pairs, j)
    decreases |pairs|
  {
    if |pairs| == 0 then
      map[]
    else
      var front := pairs[..|pairs| - 2];
      assert PairKey(pairs, |pairs| / 2 - 1) == pairs[|pairs| - 2];
      assert PairValue(pairs, |pairs| / 2 - 1) == pairs[|pairs| - 1];
      assert forall j :: 0 <= j < |front| / 2 ==> PairKey(front, j) == PairKey(pairs, j);
      assert forall j :: 0 <= j < |front| / 2 ==> PairValue(front, j) == PairValue(pairs, j);
      PutPairs(front)[pairs[|pairs| - 2] := pairs[|pairs| - 1]]
  }

  /** `createMap(k1, v1, k2, v2, ...)`: each key maps to the value right
      after it, a later repeat of a key overwrites the earlier one, and an
      odd-length argument list (a key without a value) is an error. */
  function CreateMap<T(!new)>(mapKeyValuePairs: seq<T>): (r: Option<map<T, T>>)
    ensures r.Some? <==> |mapKeyValuePairs| % 2 == 0
    ensures r.Some? ==>
              forall k :: k in r.value <==>
                exists j :: 0 <= j < |mapKeyValuePairs| / 2 && PairKey(mapKeyValuePairs, j) == k
    ensures r.Some? ==>
              forall j :: 0 <= j < |mapKeyValuePairs| / 2 && IsLastPairWithKey(mapKeyValuePairs, j) ==>
                r.value[PairKey(mapKeyValuePairs, j)] == PairValue(mapKeyValuePairs, j)
  {
    if |mapKeyValuePairs| % 2 == 1 then None else Some(PutPairs(mapKeyValuePairs))
  }

  /** `putAll` of each map in turn, first to last. */
  function CombineMaps<K(!new), V>(maps: seq<map<K, V>>): (r: map<K, V>)
    ensures forall k :: k in r <==> exists i :: 0 <= i < |maps| && k in maps[i]
    ensures forall i, k :: 0 <= i < |maps| && k in maps[i] &&
                           (forall j :: i < j < |maps| ==> k !in maps[j]) ==>
                 r[k] == maps[i][k]
  {
    if |maps| == 0 then
      map[]
    else
      var front := maps[..|maps| - 1];
      var combined := CombineMaps(front);
      CombineMapsStep(maps, combined);
      combined + maps[|maps| - 1]
  }

  /** One more `putAll` keeps what `CombineMaps` promises: what is true of
      the combination of all maps but the last is true, after adding the
      last, of all of them. */
  lemma CombineMapsStep<K(!new), V>(maps: seq<map<K, V>>, combined: map<K, V>)
    requires |maps| > 0
    requires var front := maps[..|maps| - 1];
             && (forall k :: k in combined <==> exists i :: 0 <= i < |front| && k in front[i])
             && (forall i, k :: 0 <= i < |front| && k in front[i] &&
                                (forall j :: i < j < |front| ==> k !in front[j]) ==>
                   combined[k] == front[i][k])
    ensures var r := combined + maps[|maps| - 1];
            && (forall k :: k in r <==> exists i :: 0 <= i < |maps| && k in maps[i])
            && (forall i, k :: 0 <= i < |maps| && k in maps[i] &&
                               (forall j :: i < j < |maps| ==> k !in maps[j]) ==>
                  r[k] == maps[i][k])
  {
    var front := maps[..|maps| - 1];
    assert forall i :: 0 <= i < |front| ==> front[i] == maps[i];
  }

  /** `putAll` into the union of two maps is `putAll` into the second. */
  lemma MapUnionAssociates<K, V>(x: map<K, V>, y: map<K, V>, z: map<K, V>)
    ensures (x + y) + z == x + (y + z)
  {
  }

  /** The combination of a non-empty list of maps is the combination of all
      but the last, overwritten by the last. */
  lemma CombineMapsUnfolds<K(!new), V>(maps: seq<map<K, V>>)
    requires |maps| > 0
    ensures CombineMaps(maps) == CombineMaps(maps[..|maps| - 1]) + maps[|maps| - 1]
  {
  }

  /** Combining the concatenation of two lists of maps is the union of the
      two combinations, the second winning on shared keys. */
  lemma {:induction false} CombineMapsAppend<K(!new), V>(a: seq<map<K, V>>, b: seq<map<K, V>>)
    ensures CombineMaps(a + b) == CombineMaps(a) + CombineMaps(b)
    decreases |b|
  {
    if |b| == 0 {
      assert a + b == a;
      var none: seq<map<K, V>> := [];
      assert b == none;
      assert CombineMaps(none) == map[];
      assert CombineMaps(a) + map[] == CombineMaps(a);
    } else {
      var b' := b[..|b| - 1];
      var last := b[|b| - 1];
      assert (a + b)[..|a + b| - 1] == a + b';
      assert (a + b)[|a + b| - 1] == last;
      CombineMapsUnfolds(a + b);
      CombineMapsUnfolds(b);
      CombineMapsAppend(a, b');
      MapUnionAssociates(CombineMaps(a), CombineMaps(b'), last);
    }
  }

  /** Building a map from two runs of pairs is combining the two maps. */
  lemma CreateMapAppend<T(!new)>(a: seq<T>, b: seq<T>)
    requires |a| % 2 == 0 && |b| % 2 == 0
    ensures CreateMap(a + b) == Some(CombineMaps([CreateMap(a).value, CreateMap(b).value]))
  {
    var ma, mb := PutPairs(a), PutPairs(b);
    var ms := [ma, mb];
    assert ms[..1] == [ma];
    assert [ma][..0] == [];
    assert CombineMaps([ma]) == CombineMaps([]) + ma;
    assert CombineMaps([ma]) == ma;
    assert CombineMaps(ms) == CombineMaps([ma]) + mb;
    PutPairsAppend(a, b);
  }

  lemma {:induction false} PutPairsAppend<T>(a: seq<T>, b: seq<T>)
    requires |a| % 2 == 0 && |b| % 2 == 0
    ensures PutPairs(a + b) == PutPairs(a) + PutPairs(b)
    decreases |b|
  {
    if |b| == 0 {
      assert a + b == a;
      assert PutPairs(a) + map[] == PutPairs(a);
    } else {
      var b' := b[..|b| - 2];
      var ab := a + b;
      var k, v := b[|b| - 2], b[|b| - 1];
      assert ab[..|ab| - 2] == a + b';
      assert ab[|ab| - 2] == k && ab[|ab| - 1] == v;
      PutPairsUnfolds(ab);
      PutPairsUnfolds(b);
      PutPairsAppend(a, b');
      MapUnionUpdate(PutPairs(a), PutPairs(b'), k, v);
    }
  }

  /** Putting one more pair: the map of all pairs but the last, updated
      with the last. */
  lemma PutPairsUnfolds<T>(pairs: seq<T>)
    requires |pairs| % 2 == 0 && |pairs| > 0
    ensures PutPairs(pairs) == PutPairs(pairs[..|pairs| - 2])[pairs[|pairs| - 2] := pairs[|pairs| - 1]]
  {
  }

  /** A `put` into the union of two maps is a `put` into the second. */
  lemma MapUnionUpdate<K, V>(x: map<K, V>, y: map<K, V>, k: K, v: V)
    ensures (x + y)[k := v] == x + y[k := v]
  {
  }

  /** `addToOne2ManyMap(key, value, map)` as a function returning the updated
      multimap: `key` gains `value` (a fresh one-element set when the key was
      absent) and every other key keeps its set. */
  function AddToOne2ManyMap<K, V>(key: K, value: V, one2ManyMap: map<K, set<V>>): (r: map<K, set<V>>)
    ensures r.Keys == one2ManyMap.Keys + {key}
    ensures key in one2ManyMap ==> r[key] == one2ManyMap[key] + {value}
    ensures key !in one2ManyMap ==> r[key] == {value}
    ensures forall k :: k in one2ManyMap && k != key ==> r[k] == one2ManyMap[k]
  {
    if key in one2ManyMap then
      one2ManyMap[key := one2ManyMap[key] + {value}]
    else
      one2ManyMap[key := {value}]
  }

  /** The relation a one-to-many map stands for. */
  predicate Related<K, V>(one2ManyMap: map<K, set<V>>, k: K, v: V) {
    k in one2ManyMap && v in one2ManyMap[k]
  }

  /** As a relation, the insert adds exactly the pair `(key, value)`. */
  lemma AddToOne2ManyMapRelation<K, V>(key: K, value: V, one2ManyMap: map<K, set<V>>, k: K, v: V)
    ensures Related(AddToOne2ManyMap(key, value, one2ManyMap), k, v) <==>
            Related(one2ManyMap, k, v) || (k == key && v == value)
  {
  }

  /** Inserting a pair twice is inserting it once. */
  lemma AddToOne2ManyMapIdempotent<K, V>(key: K, value: V, one2ManyMap: map<K, set<V>>)
    ensures AddToOne2ManyMap(key, value, AddToOne2ManyMap(key, value, one2ManyMap)) == AddToOne2ManyMap(key, value, one2ManyMap)
  {
    var once := AddToOne2ManyMap(key, value, one2ManyMap);
    assert once[key] + {value} == once[key];
  }

  /** Two inserts commute: the multimap does not record insertion order. */
  lemma AddToOne2ManyMapCommutes<K, V>(k1: K, v1: V, k2: K, v2: V, one2ManyMap: map<K, set<V>>)
    ensures AddToOne2ManyMap(k2, v2, AddToOne2ManyMap(k1, v1, one2ManyMap)) ==
            AddToOne2ManyMap(k1, v1, AddToOne2ManyMap(k2, v2, one2ManyMap))
  {
    var left := AddToOne2ManyMap(k2, v2, AddToOne2ManyMap(k1, v1, one2ManyMap));
    var right := AddToOne2ManyMap(k1, v1, AddToOne2ManyMap(k2, v2, one2ManyMap));
    assert left.Keys == right.Keys;
    forall k | k in left.Keys
      ensures left[k] == right[k]
    {
      if k == k1 && k == k2 {
        var before := if k in one2ManyMap then one2ManyMap[k] else {};
        assert left[k] == before + {v1} + {v2};
        assert right[k] == before + {v2} + {v1};
      }
    }
  }

  /** One step of `parseInts`: a NumberFormatException names the string. */
  function ParseIntOrFail(intAsString: string): (r: Result<int, string>)
    ensures r.Success? <==> ParseInt(intAsString).Some?
    ensures r.Success? ==> ParseInt(intAsString) == Some(r.value)
    ensures r.Failure? ==> r.error == intAsString
  {
    match ParseInt(intAsString)
    case Some(n) => Success(n)
    case None => Failure(intAsString)
  }

  /** `parseInts(intsAsStrings)`: the list of parsed values, same length and
      order; the first string that is not a decimal `int` aborts the whole
      conversion with that string. */
  function ParseInts(intsAsStrings: seq<string>): (r: Result<seq<int>, string>)
    ensures r.Success? <==> forall i :: 0 <= i < |intsAsStrings| ==> ParseInt(intsAsStrings[i]).Some?
    ensures r.Success? ==>
              && |r.value| == |intsAsStrings|
              && forall i :: 0 <= i < |intsAsStrings| ==> ParseInt(intsAsStrings[i]) == Some(r.value[i])
    ensures r.Failure? ==>
              exists j :: && 0 <= j < |intsAsStrings|
                          && intsAsStrings[j] == r.error
                          && ParseInt(intsAsStrings[j]).None?
                          && forall i :: 0 <= i < j ==> ParseInt(intsAsStrings[i]).Some?
  {
    MapAll(ParseIntOrFail, intsAsStrings)
  }

  /** `parseInts` reads back any list of `int`s written out in decimal. */
  lemma ParseIntsInvertsToDecimal(ns: seq<int>)
    requires forall i :: 0 <= i < |ns| ==> InRange(ns[i])
    ensures ParseInts(seq(|ns|, i requires 0 <= i < |ns| => ToDecimal(ns[i]))) == Success(ns)
  {
    var texts := seq(|ns|, i requires 0 <= i < |ns| => ToDecimal(ns[i]));
    forall i | 0 <= i < |ns|
      ensures ParseInt(texts[i]) == Some(ns[i])
    {
      ParseIntInvertsToDecimal(ns[i]);
    }
    var r := ParseInts(texts);
    assert r.Success?;
    assert r.value == ns;
  }

  /** `createZeroBasedSequence(length)`: 0, 1, ..., length - 1. */
  function ZeroBasedSequence(length: nat): (r: seq<int>)
    ensures |r| == length
    ensures forall i :: 0 <= i < length ==> r[i] == i
    ensures forall x :: x in r ==> 0 <= x < length
  {
    if length == 0 then [] else ZeroBasedSequence(length - 1) + [length - 1]
  }

  /** `createZeroBasedSequence(length)` on any `int`: a negative length is
      the NegativeArraySizeException of `new int[length]`. */
  function CreateZeroBasedSequence(length: int): (r: Option<seq<int>>)
    ensures r.Some? <==> length >= 0
    ensures r.Some? ==> |r.value| == length
    ensures r.Some? ==> forall i :: 0 <= i < length ==> r.value[i] == i
    ensures r.Some? ==> forall x :: x in r.value <==> 0 <= x < length
  {
    if length < 0 then
      None
    else
      var s := ZeroBasedSequence(length);
      assert forall x :: 0 <= x < length ==> s[x] == x && x in s;
      Some(s)
  }
}
