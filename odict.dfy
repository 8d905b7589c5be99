/** The converter's section tables are Python dictionaries, whose iteration order is the
    order in which keys were first inserted (assigning to a present key keeps its place).
    Two results depend on that order, so it is kept explicitly next to the mapping. */
module OrderedDict {

  datatype ODict = ODict(keys: seq<string>, vals: map<string, int>) {
    /** The keys appear once each and are exactly the mapped names. */
    ghost predicate Valid() {
      && (forall i, j :: 0 <= i < j < |keys| ==> keys[i] != keys[j])
      && (forall k :: k in vals <==> k in keys)
    }
  }

  const Empty: ODict := ODict([], map[])

  /** `d[k] = v`: a new key goes to the end, a present one keeps its place. */
  function Put(d: ODict, k: string, v: int): (r: ODict)
    ensures r.vals == d.vals[k := v]
    ensures k in d.vals ==> r.keys == d.keys
    ensures k !in d.vals ==> r.keys == d.keys + [k]
  {
    if k in d.vals then ODict(d.keys, d.vals[k := v]) else ODict(d.keys + [k], d.vals[k := v])
  }

  /** Assignment keeps a dictionary well formed. */
  lemma PutValid(d: ODict, k: string, v: int)
    requires d.Valid()
    ensures Put(d, k, v).Valid()
  {
    var r := Put(d, k, v);
    if k !in d.vals {
      forall i, j | 0 <= i < j < |r.keys|
        ensures r.keys[i] != r.keys[j]
      {
        if j == |d.keys| {
          assert r.keys[i] == d.keys[i];
        }
      }
    }
  }

  /** The same for every value assigned. */
  lemma PutKeepsValid(d: ODict, k: string)
    requires d.Valid()
    ensures forall v :: Put(d, k, v).Valid()
  {
    forall v
      ensures Put(d, k, v).Valid()
    {
      PutValid(d, k, v);
    }
  }

  /** Every entry of `a` is still in `b`, with the same value. */
  ghost predicate Extends(a: ODict, b: ODict) {
    forall k :: k in a.vals ==> k in b.vals && b.vals[k] == a.vals[k]
  }
}
