/** A JavaScript object used as a dictionary from names to strings: its own properties
    in the order they were first assigned. Assigning to an existing name replaces the
    value in place; assigning to a new one appends it. */
module JsObject {
  import opened Wrappers

  datatype Dict = Dict(entries: seq<(string, string)>)

  /** No name occurs twice. */
  predicate Valid(d: Dict) {
    forall i, j :: 0 <= i < j < |d.entries| ==> d.entries[i].0 != d.entries[j].0
  }

  /** A dictionary as JavaScript can hold it. */
  type Object = d: Dict | Valid(d) witness Dict([])

  /** `_.keys`: the names, in order. */
  function Keys(d: Dict): (r: seq<string>)
    ensures |r| == |d.entries|
    ensures forall i :: 0 <= i < |r| ==> r[i] == d.entries[i].0
  {
    seq(|d.entries|, i requires 0 <= i < |d.entries| => d.entries[i].0)
  }

  /** The position of the first entry named `k`, or the number of entries when there is
      none. */
  function Find(es: seq<(string, string)>, k: string): (i: nat)
    ensures i <= |es|
    ensures i < |es| ==> es[i].0 == k
    ensures forall j :: 0 <= j < i ==> es[j].0 != k
  {
    if |es| == 0 then 0
    else if es[0].0 == k then 0
    else 1 + Find(es[1..], k)
  }

  /** `d[k]`; None for a name that is not there. */
  function Get(d: Dict, k: string): (r: Option<string>)
    ensures r.Some? <==> k in Keys(d)
  {
    var i := Find(d.entries, k);
    if i < |d.entries| then Some(d.entries[i].1) else None
  }

  /** `d[k] = v`. */
  function Put(d: Dict, k: string, v: string): (r: Dict)
    ensures Valid(d) ==> Valid(r)
  {
    var i := Find(d.entries, k);
    if i < |d.entries| then Dict(d.entries[i := (k, v)]) else Dict(d.entries + [(k, v)])
  }

  /** `Find` is the position of the first entry named `k`. */
  lemma FindIs(es: seq<(string, string)>, k: string, i: nat)
    requires i <= |es| && (i < |es| ==> es[i].0 == k)
    requires forall j :: 0 <= j < i ==> es[j].0 != k
    ensures Find(es, k) == i
  {
  }

  /** In a dictionary each entry is what its name reads. */
  lemma GetAt(d: Object, i: nat)
    requires i < |d.entries|
    ensures Get(d, d.entries[i].0) == Some(d.entries[i].1)
  {
    FindIs(d.entries, d.entries[i].0, i);
  }

  /** After `d[k] = v`, `k` reads `v` and every other name reads as before. */
  lemma GetPut(d: Dict, k: string, v: string, k2: string)
    ensures Get(Put(d, k, v), k2) == if k2 == k then Some(v) else Get(d, k2)
  {
    var n := |d.entries|;
    var i := Find(d.entries, k);
    var es := Put(d, k, v).entries;
    var j := Find(d.entries, k2);
    if k2 == k {
      FindIs(es, k, i);
    } else if i < n || j < n {
      FindIs(es, k2, j);
    } else {
      FindIs(es, k2, n + 1);
    }
  }

  /** Appending an entry with a new name. */
  lemma GetAppend(d: Dict, k: string, v: string, k2: string)
    requires Valid(Dict(d.entries + [(k, v)]))
    ensures Get(Dict(d.entries + [(k, v)]), k2) == if k2 == k then Some(v) else Get(d, k2)
  {
    var es := d.entries + [(k, v)];
    var j := Find(d.entries, k2);
    if k2 == k {
      FindIs(es, k, |d.entries|);
    } else if j < |d.entries| {
      FindIs(es, k2, j);
    } else {
      FindIs(es, k2, |es|);
    }
  }

  /** Assigning a name the dictionary does not hold appends it as the last name. */
  lemma PutNew(d: Dict, k: string, v: string)
    requires k !in Keys(d)
    ensures Keys(Put(d, k, v)) == Keys(d) + [k]
    ensures forall k2 :: Get(Put(d, k, v), k2) == if k2 == k then Some(v) else Get(d, k2)
  {
    KeysPut(d, k, v);
    forall k2 ensures Get(Put(d, k, v), k2) == if k2 == k then Some(v) else Get(d, k2) {
      GetPut(d, k, v, k2);
    }
  }

  /** `d[k] = v` keeps the order of the names and appends `k` when it is new. */
  lemma KeysPut(d: Dict, k: string, v: string)
    ensures Keys(Put(d, k, v)) == if k in Keys(d) then Keys(d) else Keys(d) + [k]
  {
  }

  /** The assignments of `_.each(_.keys(source), k => target[k] = source[k])`,
      one entry of `source` after the other. */
  function Assign(target: Dict, source: Dict): Dict
    decreases |source.entries|
  {
    if |source.entries| == 0 then target
    else
      var n := |source.entries| - 1;
      Put(Assign(target, Dict(source.entries[..n])), source.entries[n].0, source.entries[n].1)
  }

  /** Assigning a dictionary keeps the target a dictionary. */
  lemma {:induction false} AssignValid(target: Dict, source: Dict)
    requires Valid(target)
    ensures Valid(Assign(target, source))
    decreases |source.entries|
  {
    if |source.entries| > 0 {
      AssignValid(target, Dict(source.entries[..|source.entries| - 1]));
    }
  }

  /** A name of the source reads its source value afterwards; any other name reads as
      in the target. */
  lemma {:induction false} AssignGet(target: Dict, source: Object, k: string)
    ensures Get(Assign(target, source), k) == if k in Keys(source) then Get(source, k) else Get(target, k)
    decreases |source.entries|
  {
    if |source.entries| > 0 {
      var n := |source.entries| - 1;
      var init: Object := Dict(source.entries[..n]);
      var last := source.entries[n];
      assert source.entries == init.entries + [(last.0, last.1)];
      assert Keys(source) == Keys(init) + [last.0];
      AssignGet(target, init, k);
      GetPut(Assign(target, init), last.0, last.1, k);
      GetAppend(init, last.0, last.1, k);
    }
  }

  /** The names afterwards are the target's, in their order, followed by the names new
      to it; together they are the names of either. */
  lemma {:induction false} AssignKeys(target: Dict, source: Dict)
    ensures |Keys(target)| <= |Keys(Assign(target, source))|
    ensures Keys(Assign(target, source))[..|Keys(target)|] == Keys(target)
    ensures forall k :: k in Keys(Assign(target, source)) <==> k in Keys(target) || k in Keys(source)
    decreases |source.entries|
  {
    if |source.entries| > 0 {
      var n := |source.entries| - 1;
      var init := Dict(source.entries[..n]);
      var last := source.entries[n];
      var a := Assign(target, init);
      AssignKeys(target, init);
      PutKeeps(a, last.0, last.1, Keys(target));
      KeysSnoc(source);
      assert Assign(target, source) == Put(a, last.0, last.1);
    }
  }

  /** `d[k] = v` keeps every prefix of the names and adds at most `k`. */
  lemma PutKeeps(d: Dict, k: string, v: string, prefix: seq<string>)
    requires |prefix| <= |Keys(d)| && Keys(d)[..|prefix|] == prefix
    ensures |prefix| <= |Keys(Put(d, k, v))| && Keys(Put(d, k, v))[..|prefix|] == prefix
    ensures forall x :: x in Keys(Put(d, k, v)) <==> x in Keys(d) || x == k
  {
    KeysPut(d, k, v);
    if k !in Keys(d) {
      assert (Keys(d) + [k])[..|prefix|] == Keys(d)[..|prefix|];
    }
  }

  /** The names of all entries but the last, then the last one's. */
  lemma KeysSnoc(d: Dict)
    requires |d.entries| > 0
    ensures Keys(d) == Keys(Dict(d.entries[..|d.entries| - 1])) + [d.entries[|d.entries| - 1].0]
  {
  }

  /** The `_.each` loop itself: each entry of `source` assigned to the target in turn. */
  method AssignEach(target: Object, source: Object) returns (r: Object)
    ensures r == Assign(target, source)
  {
    r := target;
    for i := 0 to |source.entries|
      invariant r == Assign(target, Dict(source.entries[..i]))
    {
      assert source.entries[..i + 1][..i] == source.entries[..i];
      r := Put(r, source.entries[i].0, source.entries[i].1);
    }
    assert source.entries[..|source.entries|] == source.entries;
  }
}
