/** Loading the request parameters, in either of the two shapes a caller may give them,
    into one map from each name to all of its values. */
module ParametersLoader {

  /** One parameter value as a caller writes it: null or undefined, a single string,
      or an array of strings. A number is given here as its decimal text. */
  datatype Value = Null | Text(s: string) | Many(items: seq<string>)

  /** The parameters argument: missing (undefined, null or ""), an object from names
      to values, or an array of such objects (typically one name each). */
  datatype Input = Missing | Object(fields: map<string, Value>) | Array(objects: seq<map<string, Value>>)

  /** Every name with the ordered list of its values. */
  type ParameterMap = map<string, seq<string>>

  /** No name is left without a value. */
  predicate IsParameterMap(m: ParameterMap) {
    forall k :: k in m ==> |m[k]| > 0
  }

  /** The values one entry contributes; null and the empty array stand for one "". */
  function Values(v: Value): (r: seq<string>)
    ensures |r| > 0
  {
    match v
    case Null => [""]
    case Text(s) => [s]
    case Many(items) => if |items| == 0 then [""] else items
  }

  function LoadObject(o: map<string, Value>): ParameterMap {
    map k | k in o :: Values(o[k])
  }

  function Lookup(m: ParameterMap, k: string): seq<string> {
    if k in m then m[k] else []
  }

  /** The values of `b` appended, name by name, to those of `a`. */
  function Merge(a: ParameterMap, b: ParameterMap): ParameterMap {
    map k | k in a.Keys + b.Keys :: Lookup(a, k) + Lookup(b, k)
  }

  /** The objects of an array loaded one after the other. */
  function LoadArray(objects: seq<map<string, Value>>): ParameterMap {
    if |objects| == 0 then map[]
    else Merge(LoadArray(objects[..|objects| - 1]), LoadObject(objects[|objects| - 1]))
  }

  /** The parameter map of an input: every name that occurs, with all its values in
      the order they occur; missing, `{}` and `[]` all give the empty map. */
  function Get(input: Input): (r: ParameterMap)
    ensures IsParameterMap(r)
    ensures input.Missing? || input == Object(map[]) || input == Array([]) ==> r == map[]
    ensures input.Object? ==> r.Keys == input.fields.Keys
  {
    match input
    case Missing => map[]
    case Object(o) => LoadObject(o)
    case Array(objects) => LoadArrayIsParameterMap(objects); LoadArray(objects)
  }

  lemma {:induction false} LoadArrayIsParameterMap(objects: seq<map<string, Value>>)
    ensures IsParameterMap(LoadArray(objects))
  {
    if |objects| > 0 {
      LoadArrayIsParameterMap(objects[..|objects| - 1]);
    }
  }

  // ---------------------------------------------------------------------------
  // The reference reading of an array input: name by name, the values of every
  // object that has the name, in array order.

  function ObjectValues(o: map<string, Value>, k: string): seq<string> {
    if k in o then Values(o[k]) else []
  }

  function ValuesAcross(objects: seq<map<string, Value>>, k: string): seq<string> {
    if |objects| == 0 then [] else ObjectValues(objects[0], k) + ValuesAcross(objects[1..], k)
  }

  lemma {:induction false} ValuesAcrossAppend(objects: seq<map<string, Value>>, o: map<string, Value>, k: string)
    ensures ValuesAcross(objects + [o], k) == ValuesAcross(objects, k) + ObjectValues(o, k)
  {
    if |objects| == 0 {
      assert objects + [o] == [o];
    } else {
      assert (objects + [o])[1..] == objects[1..] + [o];
      ValuesAcrossAppend(objects[1..], o, k);
    }
  }

  lemma {:induction false} ValuesAcrossEmpty(objects: seq<map<string, Value>>, k: string)
    ensures ValuesAcross(objects, k) == [] <==> forall i :: 0 <= i < |objects| ==> k !in objects[i]
  {
    if |objects| > 0 {
      ValuesAcrossEmpty(objects[1..], k);
      assert forall i :: 1 <= i < |objects| ==> objects[i] == objects[1..][i - 1];
    }
  }

  /** An array input names exactly the names of its objects, and gives each name the
      values of every object that has it, concatenated in array order. */
  lemma {:induction false} LoadArrayConcatenates(objects: seq<map<string, Value>>, k: string)
    ensures k in LoadArray(objects) <==> exists i :: 0 <= i < |objects| && k in objects[i]
    ensures k in LoadArray(objects) ==> LoadArray(objects)[k] == ValuesAcross(objects, k)
  {
    ValuesAcrossEmpty(objects, k);
    LoadArrayValues(objects, k);
    LoadArrayIsParameterMap(objects);
  }

  lemma MergeLookup(a: ParameterMap, b: ParameterMap, k: string)
    ensures Lookup(Merge(a, b), k) == Lookup(a, k) + Lookup(b, k)
  {
  }

  lemma LoadObjectLookup(o: map<string, Value>, k: string)
    ensures Lookup(LoadObject(o), k) == ObjectValues(o, k)
  {
  }

  lemma {:induction false} LoadArrayValues(objects: seq<map<string, Value>>, k: string)
    ensures Lookup(LoadArray(objects), k) == ValuesAcross(objects, k)
  {
    if |objects| > 0 {
      var init := objects[..|objects| - 1];
      var last := objects[|objects| - 1];
      calc {
        Lookup(LoadArray(objects), k);
        Lookup(Merge(LoadArray(init), LoadObject(last)), k);
        { MergeLookup(LoadArray(init), LoadObject(last), k); }
        Lookup(LoadArray(init), k) + Lookup(LoadObject(last), k);
        { LoadArrayValues(init, k); LoadObjectLookup(last, k); }
        ValuesAcross(init, k) + ObjectValues(last, k);
        { ValuesAcrossAppend(init, last, k); assert init + [last] == objects; }
        ValuesAcross(objects, k);
      }
    }
  }

  /** An object and an array agree when each name's values in the object are the
      concatenation of its values across the array. */
  lemma ArrayMatchesObject(objects: seq<map<string, Value>>, o: map<string, Value>)
    requires forall k :: k in o <==> exists i :: 0 <= i < |objects| && k in objects[i]
    requires forall k :: k in o ==> Values(o[k]) == ValuesAcross(objects, k)
    ensures Get(Array(objects)) == Get(Object(o))
  {
    var fromArray := LoadArray(objects);
    var fromObject := LoadObject(o);
    forall k
      ensures k in fromArray <==> k in fromObject
      ensures k in fromObject ==> fromArray[k] == fromObject[k]
    {
      LoadArrayConcatenates(objects, k);
      if k in fromObject {
        assert fromObject[k] == Values(o[k]);
      }
    }
    SameMaps(fromArray, fromObject);
    GetShapes(objects, o);
  }

  lemma SameMaps(a: ParameterMap, b: ParameterMap)
    requires forall k :: k in a <==> k in b
    requires forall k :: k in b ==> a[k] == b[k]
    ensures a == b
  {
  }

  lemma GetShapes(objects: seq<map<string, Value>>, o: map<string, Value>)
    ensures Get(Array(objects)) == LoadArray(objects)
    ensures Get(Object(o)) == LoadObject(o)
  {
  }

  /** A property that is null or an empty array is kept, with the one value "", in an
      object and in an array alike. */
  lemma EmptyPropertyKept()
    ensures Get(Object(map["a" := Null])) == map["a" := [""]]
    ensures Get(Object(map["a" := Many([])])) == map["a" := [""]]
    ensures Get(Array([map["a" := Null]])) == map["a" := [""]]
    ensures Get(Array([map["a" := Many([])]])) == map["a" := [""]]
  {
    var expected := map["a" := [""]];
    SameMaps(LoadObject(map["a" := Null]), expected);
    SameMaps(LoadObject(map["a" := Many([])]), expected);
    assert LoadArray([map["a" := Null]]) == Merge(map[], LoadObject(map["a" := Null]));
    SameMaps(LoadArray([map["a" := Null]]), expected);
    assert LoadArray([map["a" := Many([])]]) == Merge(map[], LoadObject(map["a" := Many([])]));
    SameMaps(LoadArray([map["a" := Many([])]]), expected);
  }

  /** The example object loads to `{ a: ["b"], foo: ["bar", "baz", "qux"] }`. */
  lemma LoadObjectExample()
    ensures Get(Object(map["a" := Text("b"), "foo" := Many(["bar", "baz", "qux"])]))
      == map["a" := ["b"], "foo" := ["bar", "baz", "qux"]]
  {
    var o := map["a" := Text("b"), "foo" := Many(["bar", "baz", "qux"])];
    var expected := map["a" := ["b"], "foo" := ["bar", "baz", "qux"]];
    assert LoadObject(o).Keys == {"a", "foo"} == expected.Keys;
    SameMaps(LoadObject(o), expected);
  }

  /** The same parameters given as an array of one-name objects, with `foo` split
      over two of them, load to the same map. */
  lemma LoadArrayExample()
    ensures Get(Array([map["a" := Text("b")], map["foo" := Text("bar")], map["foo" := Many(["baz", "qux"])]]))
      == map["a" := ["b"], "foo" := ["bar", "baz", "qux"]]
  {
    var objects := [map["a" := Text("b")], map["foo" := Text("bar")], map["foo" := Many(["baz", "qux"])]];
    var o := map["a" := Text("b"), "foo" := Many(["bar", "baz", "qux"])];
    forall k
      ensures k in o <==> exists i :: 0 <= i < |objects| && k in objects[i]
    {
      if k in o {
        assert k == "a" ==> k in objects[0];
        assert k == "foo" ==> k in objects[1];
      }
    }
    assert ValuesAcross(objects, "a") == ["b"] by {
      assert objects[1..][1..][1..] == [];
    }
    assert ValuesAcross(objects, "foo") == ["bar", "baz", "qux"] by {
      assert objects[1..][1..][1..] == [];
    }
    ArrayMatchesObject(objects, o);
    LoadObjectExample();
  }
}

/** The normalised request parameters of section 3.4.1.3.2 of RFC 5849: every
    (name, value) pair, ordered, encoded and joined as `name=value&...`. */
module ParametersElement {
  import Text
  import Rfc3986
  import ParametersLoader

  type ParameterMap = ParametersLoader.ParameterMap

  /** Names are ordered by their encoded form. */
  predicate NameLe(a: string, b: string) {
    Text.Le(Rfc3986.Encode(a), Rfc3986.Encode(b))
  }

  lemma NameLeAntisymmetric(a: string, b: string)
    requires NameLe(a, b) && NameLe(b, a)
    ensures a == b
  {
    Text.LeAntisymmetric(Rfc3986.Encode(a), Rfc3986.Encode(b));
    Rfc3986.EncodeInjective(a, b);
  }

  predicate IsLeastName(x: string, s: set<string>) {
    x in s && forall y :: y in s ==> NameLe(x, y)
  }

  lemma LeastNameWitness(s: set<string>) returns (x: string)
    requires s != {}
    ensures IsLeastName(x, s)
    decreases |s|
  {
    var y :| y in s;
    if s == {y} {
      Text.LeReflexive(Rfc3986.Encode(y));
      x := y;
    } else {
      var z := LeastNameWitness(s - {y});
      Text.LeTotal(Rfc3986.Encode(y), Rfc3986.Encode(z));
      if NameLe(y, z) {
        forall w | w in s
          ensures NameLe(y, w)
        {
          if w == y {
            Text.LeReflexive(Rfc3986.Encode(y));
          } else {
            assert w in s - {y};
            Text.LeTransitive(Rfc3986.Encode(y), Rfc3986.Encode(z), Rfc3986.Encode(w));
          }
        }
        x := y;
      } else {
        x := z;
      }
    }
  }

  lemma LeastNameExists(s: set<string>)
    requires s != {}
    ensures exists x :: IsLeastName(x, s)
  {
    var x := LeastNameWitness(s);
  }

  lemma LeastNameUnique(s: set<string>)
    ensures forall x, y :: IsLeastName(x, s) && IsLeastName(y, s) ==> x == y
  {
    forall x, y | IsLeastName(x, s) && IsLeastName(y, s)
      ensures x == y
    {
      NameLeAntisymmetric(x, y);
    }
  }

  /** The names of `s`, each once, in ascending order of their encoded forms. */
  function SortedNames(s: set<string>): (r: seq<string>)
    ensures |r| == |s|
    ensures forall x :: x in r <==> x in s
    ensures StrictlySortedNames(r)
    decreases |s|
  {
    if s == {} then []
    else
      LeastNameUnique(s);
      LeastNameExists(s);
      var x :| IsLeastName(x, s);
      var rest := SortedNames(s - {x});
      LeastNameFirst(x, s, rest);
      [x] + rest
  }

  predicate StrictlySortedNames(r: seq<string>) {
    forall i, j :: 0 <= i < j < |r| ==> NameLe(r[i], r[j]) && r[i] != r[j]
  }

  lemma LeastNameFirst(x: string, s: set<string>, rest: seq<string>)
    requires IsLeastName(x, s)
    requires |rest| == |s - {x}| && StrictlySortedNames(rest)
    requires forall y :: y in rest <==> y in s - {x}
    ensures |[x] + rest| == |s|
    ensures forall y :: y in [x] + rest <==> y in s
    ensures StrictlySortedNames([x] + rest)
  {
    forall j | 0 <= j < |rest|
      ensures NameLe(x, rest[j]) && x != rest[j]
    {
      assert rest[j] in s - {x};
    }
    ConsSortedNames(x, rest);
  }

  lemma ConsSortedNames(x: string, rest: seq<string>)
    requires StrictlySortedNames(rest)
    requires forall j :: 0 <= j < |rest| ==> NameLe(x, rest[j]) && x != rest[j]
    ensures StrictlySortedNames([x] + rest)
  {
    var r := [x] + rest;
    forall i, j | 0 <= i < j < |r|
      ensures NameLe(r[i], r[j]) && r[i] != r[j]
    {
      if i > 0 {
        assert r[i] == rest[i - 1] && r[j] == rest[j - 1];
      }
    }
  }

  /** The pair order: by encoded name, then, for one name, by value. */
  predicate PairLe(p: (string, string), q: (string, string)) {
    if p.0 == q.0 then Text.Le(p.1, q.1) else NameLe(p.0, q.0)
  }

  predicate PairsSorted(ps: seq<(string, string)>) {
    forall i, j :: 0 <= i < j < |ps| ==> PairLe(ps[i], ps[j])
  }

  /** `name` with each of `values`, in that order. */
  function NamePairs(name: string, values: seq<string>): (r: seq<(string, string)>)
    ensures |r| == |values|
    ensures forall i :: 0 <= i < |r| ==> r[i] == (name, values[i])
  {
    seq(|values|, i requires 0 <= i < |values| => (name, values[i]))
  }

  /** The pairs of the given names, name after name, each name's values sorted. */
  function PairsOf(m: ParameterMap, names: seq<string>): seq<(string, string)>
    requires forall i :: 0 <= i < |names| ==> names[i] in m
  {
    if |names| == 0 then []
    else NamePairs(names[0], Text.SortStrings(m[names[0]])) + PairsOf(m, names[1..])
  }

  /** Every (name, value) pair of `m`, unencoded, in the order the element emits them. */
  function RawPairs(m: ParameterMap): seq<(string, string)> {
    PairsOf(m, SortedNames(m.Keys))
  }

  /** The encoded `name=value` text of each pair. */
  function Render(ps: seq<(string, string)>): (r: seq<string>)
    ensures |r| == |ps|
    ensures forall i :: 0 <= i < |ps| ==> r[i] == Rfc3986.Encode(ps[i].0) + "=" + Rfc3986.Encode(ps[i].1)
  {
    seq(|ps|, i requires 0 <= i < |ps| => Rfc3986.Encode(ps[i].0) + "=" + Rfc3986.Encode(ps[i].1))
  }

  /** The normalised parameter string; the empty map gives "". */
  function Get(m: ParameterMap): (r: string)
    ensures m == map[] ==> r == ""
  {
    Text.Join(Render(RawPairs(m)), "&")
  }

  /** A loaded parameter map gives "" exactly when it has no names: every pair renders
      as a non-empty `name=value`. */
  lemma GetEmptyExactly(m: ParameterMap)
    requires ParametersLoader.IsParameterMap(m)
    ensures Get(m) == "" <==> m == map[]
  {
    if m != map[] {
      var k :| k in m;
      var p := (k, m[k][0]);
      RawPairsContent(m, p);
      assert p in multiset(RawPairs(m));
      var parts := Render(RawPairs(m));
      assert |parts[0]| > 0;
      Text.JoinStartsWithFirst(parts, "&");
    }
  }

  /** `new ParametersElement(parameters).get()`: the parameters loaded, then
      normalised; "" exactly when the input holds no parameter. */
  function OfInput(input: ParametersLoader.Input): (r: string)
    ensures r == "" <==> ParametersLoader.Get(input) == map[]
  {
    GetEmptyExactly(ParametersLoader.Get(input));
    Get(ParametersLoader.Get(input))
  }

  /** Undefined, "", null and `{}` give "" (and so does `[]`). */
  lemma NonValues()
    ensures OfInput(ParametersLoader.Missing) == ""
    ensures OfInput(ParametersLoader.Object(map[])) == ""
    ensures OfInput(ParametersLoader.Array([])) == ""
  {
  }

  // ---------------------------------------------------------------------------
  // Order.

  lemma {:induction false} PairsOfNames(m: ParameterMap, names: seq<string>)
    requires forall i :: 0 <= i < |names| ==> names[i] in m
    ensures forall i :: 0 <= i < |PairsOf(m, names)| ==> PairsOf(m, names)[i].0 in names
  {
    if |names| > 0 {
      PairsOfNames(m, names[1..]);
    }
  }

  lemma {:induction false} PairsOfSorted(m: ParameterMap, names: seq<string>)
    requires forall i :: 0 <= i < |names| ==> names[i] in m
    requires StrictlySortedNames(names)
    ensures PairsSorted(PairsOf(m, names))
  {
    if |names| > 0 {
      var head := NamePairs(names[0], Text.SortStrings(m[names[0]]));
      var tail := PairsOf(m, names[1..]);
      PairsOfSorted(m, names[1..]);
      PairsOfNames(m, names[1..]);
      NamePairsSorted(names[0], Text.SortStrings(m[names[0]]));
      forall j | 0 <= j < |tail|
        ensures tail[j].0 != names[0] && NameLe(names[0], tail[j].0)
      {
        var k :| 0 <= k < |names[1..]| && names[1..][k] == tail[j].0;
        assert names[k + 1] == tail[j].0;
      }
      ConcatSorted(head, tail, names[0]);
    }
  }

  lemma NamePairsSorted(name: string, values: seq<string>)
    requires Text.Sorted(values)
    ensures PairsSorted(NamePairs(name, values))
  {
  }

  lemma ConcatSorted(head: seq<(string, string)>, tail: seq<(string, string)>, name: string)
    requires PairsSorted(head) && PairsSorted(tail)
    requires forall i :: 0 <= i < |head| ==> head[i].0 == name
    requires forall j :: 0 <= j < |tail| ==> tail[j].0 != name && NameLe(name, tail[j].0)
    ensures PairsSorted(head + tail)
  {
    var ps := head + tail;
    forall i, j | 0 <= i < j < |ps|
      ensures PairLe(ps[i], ps[j])
    {
      if j < |head| {
        assert ps[i] == head[i] && ps[j] == head[j];
      } else if i < |head| {
        assert ps[i] == head[i] && ps[j] == tail[j - |head|];
      } else {
        assert ps[i] == tail[i - |head|] && ps[j] == tail[j - |head|];
      }
    }
  }

  /** Pairs come out ordered by encoded name, then by value. */
  lemma RawPairsSorted(m: ParameterMap)
    ensures PairsSorted(RawPairs(m))
  {
    PairsOfSorted(m, SortedNames(m.Keys));
  }

  // ---------------------------------------------------------------------------
  // Content.

  lemma {:induction false} NamePairsCount(name: string, values: seq<string>, p: (string, string))
    ensures multiset(NamePairs(name, values))[p] == if p.0 == name then multiset(values)[p.1] else 0
  {
    if |values| > 0 {
      var rest := values[1..];
      NamePairsCount(name, rest, p);
      assert NamePairs(name, values) == [(name, values[0])] + NamePairs(name, rest);
      assert values == [values[0]] + rest;
    }
  }

  lemma {:induction false} PairsOfCount(m: ParameterMap, names: seq<string>, p: (string, string))
    requires forall i :: 0 <= i < |names| ==> names[i] in m
    requires forall i, j :: 0 <= i < j < |names| ==> names[i] != names[j]
    ensures multiset(PairsOf(m, names))[p] == if p.0 in names then multiset(m[p.0])[p.1] else 0
  {
    if |names| > 0 {
      PairsOfCount(m, names[1..], p);
      NamePairsCount(names[0], Text.SortStrings(m[names[0]]), p);
      if p.0 == names[0] {
        assert p.0 !in names[1..];
      }
    }
  }

  /** Every value of every name is emitted, as often as it occurs, and nothing else. */
  lemma RawPairsContent(m: ParameterMap, p: (string, string))
    ensures multiset(RawPairs(m))[p] == if p.0 in m then multiset(m[p.0])[p.1] else 0
  {
    PairsOfCount(m, SortedNames(m.Keys), p);
  }

  /** Sorted pairs are determined by their multiset: however the input was ordered,
      there is one sorted arrangement. */
  lemma {:induction false} PairsSortedUnique(a: seq<(string, string)>, b: seq<(string, string)>)
    requires PairsSorted(a) && PairsSorted(b)
    requires multiset(a) == multiset(b)
    ensures a == b
    decreases |a|
  {
    if |a| > 0 {
      HeadIsLeast(a, b[0]);
      HeadIsLeast(b, a[0]);
      PairLeAntisymmetric(a[0], b[0]);
      TailMultiset(a);
      TailMultiset(b);
      PairsSortedUnique(a[1..], b[1..]);
    } else {
      assert |b| == |multiset(b)| == 0;
    }
  }

  lemma HeadIsLeast(a: seq<(string, string)>, x: (string, string))
    requires PairsSorted(a) && x in multiset(a)
    ensures PairLe(a[0], x)
  {
    var i :| 0 <= i < |a| && a[i] == x;
    if i == 0 {
      PairLeReflexive(x);
    }
  }

  lemma TailMultiset<T>(a: seq<T>)
    requires |a| > 0
    ensures multiset(a[1..]) == multiset(a) - multiset{a[0]}
  {
    assert a == [a[0]] + a[1..];
  }

  lemma PairLeReflexive(p: (string, string))
    ensures PairLe(p, p)
  {
    Text.LeReflexive(p.1);
  }

  lemma PairLeAntisymmetric(p: (string, string), q: (string, string))
    requires PairLe(p, q) && PairLe(q, p)
    ensures p == q
  {
    if p.0 == q.0 {
      Text.LeAntisymmetric(p.1, q.1);
    } else {
      NameLeAntisymmetric(p.0, q.0);
    }
  }

  /** The emitted pairs are the one sorted arrangement of the map's pairs. */
  lemma RawPairsCanonical(m: ParameterMap, ps: seq<(string, string)>)
    requires PairsSorted(ps)
    requires forall p :: multiset(ps)[p] == if p.0 in m then multiset(m[p.0])[p.1] else 0
    ensures ps == RawPairs(m)
  {
    forall p
      ensures multiset(ps)[p] == multiset(RawPairs(m))[p]
    {
      RawPairsContent(m, p);
    }
    assert multiset(ps) == multiset(RawPairs(m));
    RawPairsSorted(m);
    PairsSortedUnique(ps, RawPairs(m));
  }

  // ---------------------------------------------------------------------------
  // Shape of the text.

  /** One `&` between neighbouring pairs and no other. */
  lemma SeparatorCount(m: ParameterMap)
    ensures var n := |RawPairs(m)|;
      multiset(Get(m))['&'] == if n == 0 then 0 else n - 1
  {
    var parts := Render(RawPairs(m));
    forall i | 0 <= i < |parts|
      ensures '&' !in parts[i]
    {
      var p := RawPairs(m)[i];
      Rfc3986.EncodeHasNoDelimiters(p.0);
      Rfc3986.EncodeHasNoDelimiters(p.1);
    }
    Text.JoinSeparatorCount(parts, '&');
  }

  // ---------------------------------------------------------------------------
  // The ordering examples of the parameter element's tests.

  lemma EncodeCAt()
    ensures Rfc3986.Encode("c@") == "c%40" && Rfc3986.Encode("c2") == "c2" && Rfc3986.Encode("") == ""
  {
    Rfc3986.EncodeAppend("c", "@");
    assert "c" + "@" == "c@";
    Rfc3986.EncodeAsciiReserved('@');
    Rfc3986.EncodeAlphabet("c");
    Rfc3986.EncodeAlphabet("c2");
    Rfc3986.EncodeAlphabet("");
  }

  lemma CAtPairs()
    ensures RawPairs(map["c2" := [""], "c@" := [""]]) == [("c@", ""), ("c2", "")]
  {
    var m: ParameterMap := map["c2" := [""], "c@" := [""]];
    var ps := [("c@", ""), ("c2", "")];
    assert PairsSorted(ps) by {
      EncodeCAt();
      assert Text.Le("c%40", "c2");
      assert PairLe(ps[0], ps[1]);
    }
    forall p
      ensures multiset(ps)[p] == if p.0 in m then multiset(m[p.0])[p.1] else 0
    {
    }
    RawPairsCanonical(m, ps);
  }

  lemma CAtRender()
    ensures Render([("c@", ""), ("c2", "")]) == ["c%40=", "c2="]
  {
    var ps := [("c@", ""), ("c2", "")];
    var r := Render(ps);
    EncodeCAt();
    assert r[0] == "c%40=" by {
      assert r[0] == Rfc3986.Encode(ps[0].0) + "=" + Rfc3986.Encode(ps[0].1);
      assert ps[0].0 == "c@" && ps[0].1 == "";
      assert "c%40" + "=" + "" == "c%40=";
    }
    assert r[1] == "c2=" by {
      assert r[1] == Rfc3986.Encode(ps[1].0) + "=" + Rfc3986.Encode(ps[1].1);
      assert ps[1].0 == "c2" && ps[1].1 == "";
      assert "c2" + "=" + "" == "c2=";
    }
    assert |r| == 2;
    assert r == [r[0], r[1]];
  }

  /** Names are ordered by their encoded form: `c@` encodes to `c%40`, which sorts
      before `c2` although `@` sorts after `2`. */
  lemma OrderByEncodedName()
    ensures Get(map["c2" := [""], "c@" := [""]]) == "c%40=&c2="
  {
    CAtPairs();
    CAtRender();
    Text.JoinPair("c%40=", "c2=", "&");
  }

  /** Several values of one name are ordered as raw strings: `bar` before `ß`. */
  lemma ValuesOrderedRaw()
    ensures RawPairs(map["foo" := ["ß", "bar"]]) == [("foo", "bar"), ("foo", "ß")]
  {
    var m: ParameterMap := map["foo" := ["ß", "bar"]];
    var ps: seq<(string, string)> := [("foo", "bar"), ("foo", "ß")];
    RawValuesSorted();
    assert multiset(ps) == multiset{("foo", "bar"), ("foo", "ß")};
    assert multiset(m["foo"]) == multiset{"bar", "ß"};
    forall p
      ensures multiset(ps)[p] == if p.0 in m then multiset(m[p.0])[p.1] else 0
    {
    }
    RawPairsCanonical(m, ps);
  }

  lemma RawValuesSorted()
    ensures PairsSorted([("foo", "bar"), ("foo", "ß")])
  {
    var ps := [("foo", "bar"), ("foo", "ß")];
    assert Text.Le("bar", "ß");
    assert PairLe(ps[0], ps[1]);
  }

  /** A single parameter `c@` with an empty value gives `c%40=`. */
  lemma SingleCAt()
    ensures Get(map["c@" := [""]]) == "c%40="
  {
    SingleCAtPairs();
    var r := Render([("c@", "")]);
    assert r == ["c%40="] by {
      EncodeCAt();
      assert r[0] == Rfc3986.Encode("c@") + "=" + Rfc3986.Encode("");
      assert "c%40" + "=" + "" == "c%40=";
    }
  }

  lemma SingleCAtPairs()
    ensures RawPairs(map["c@" := [""]]) == [("c@", "")]
  {
    var m: ParameterMap := map["c@" := [""]];
    var ps: seq<(string, string)> := [("c@", "")];
    forall p
      ensures multiset(ps)[p] == if p.0 in m then multiset(m[p.0])[p.1] else 0
    {
    }
    RawPairsCanonical(m, ps);
  }
}
