/** Deserialised JSON values, as the scripts receive them from json.load,
    and the one dictionary operation they use: Python's `d[k] = v`.

    A JSON object is an association list in insertion order, which is how a
    Python dict behaves: assigning to a present key keeps its position,
    assigning to a new key appends it. */
module Json {
  import opened Wrappers

  datatype Json =
    | Object(fields: seq<Field>)
    | Array(items: seq<Json>)
    | Str(s: string)
    | Num(n: int)
    | Bool(b: bool)
    | Null

  datatype Field = Field(key: string, value: Json)

  /** The keys of a dict, in insertion order. */
  function Keys(fs: seq<Field>): (ks: seq<string>)
    ensures |ks| == |fs|
    ensures forall i :: 0 <= i < |fs| ==> ks[i] == fs[i].key
  {
    if fs == [] then [] else Keys(fs[..|fs| - 1]) + [fs[|fs| - 1].key]
  }

  function KeySet(fs: seq<Field>): set<string> {
    set i | 0 <= i < |fs| :: fs[i].key
  }

  /** No key occurs twice: every dict the scripts build or read. */
  predicate UniqueKeys(fs: seq<Field>) {
    forall i, j :: 0 <= i < j < |fs| ==> fs[i].key != fs[j].key
  }

  /** Position of key `k`, if present (the first one, should keys repeat). */
  function Find(fs: seq<Field>, k: string): (r: Option<nat>)
    ensures r.Some? ==> r.value < |fs| && fs[r.value].key == k
    ensures r.Some? ==> forall j :: 0 <= j < r.value ==> fs[j].key != k
    ensures r.None? <==> k !in KeySet(fs)
  {
    if fs == [] then None
    else if fs[0].key == k then Some(0)
    else
      match Find(fs[1..], k)
      case None =>
        assert KeySet(fs) == {fs[0].key} + KeySet(fs[1..]) by {
          forall x | x in KeySet(fs) ensures x in {fs[0].key} + KeySet(fs[1..]) {
            var i :| 0 <= i < |fs| && fs[i].key == x;
            if i > 0 { assert fs[1..][i - 1].key == x; }
          }
        }
        None
      case Some(j) => Some(j + 1)
  }

  /** `d.get(k)`: the value stored under `k`, or None for a missing key. */
  function Get(fs: seq<Field>, k: string): Option<Json> {
    match Find(fs, k)
    case Some(i) => Some(fs[i].value)
    case None => None
  }

  /** `d[k] = v`. */
  function Put(fs: seq<Field>, k: string, v: Json): seq<Field> {
    match Find(fs, k)
    case Some(i) => fs[i := Field(k, v)]
    case None => fs + [Field(k, v)]
  }

  /** After `d[k] = v`, `k` holds `v`, every other key holds what it held,
      a present key keeps its place and a new key goes at the end. */
  lemma PutSpec(fs: seq<Field>, k: string, v: Json)
    ensures Get(Put(fs, k, v), k) == Some(v)
    ensures forall k' :: k' != k ==> Get(Put(fs, k, v), k') == Get(fs, k')
    ensures KeySet(Put(fs, k, v)) == KeySet(fs) + {k}
    ensures k !in KeySet(fs) ==> Put(fs, k, v) == fs + [Field(k, v)]
    ensures k in KeySet(fs) ==> |Put(fs, k, v)| == |fs| && Keys(Put(fs, k, v)) == Keys(fs)
    ensures UniqueKeys(fs) ==> UniqueKeys(Put(fs, k, v))
  {
    match Find(fs, k)
    case Some(i) => PutPresent(fs, k, v, i);
    case None => PutAbsent(fs, k, v);
  }

  lemma PutPresent(fs: seq<Field>, k: string, v: Json, i: nat)
    requires Find(fs, k) == Some(i)
    ensures Put(fs, k, v) == fs[i := Field(k, v)]
    ensures Get(Put(fs, k, v), k) == Some(v)
    ensures forall k' :: k' != k ==> Get(Put(fs, k, v), k') == Get(fs, k')
    ensures KeySet(Put(fs, k, v)) == KeySet(fs)
    ensures |Put(fs, k, v)| == |fs| && Keys(Put(fs, k, v)) == Keys(fs)
    ensures UniqueKeys(fs) ==> UniqueKeys(Put(fs, k, v))
  {
    var r := fs[i := Field(k, v)];
    assert r == Put(fs, k, v);
    SameKeys(fs, r);
    ReplacedGet(fs, k, v, i);
  }

  /** The lookups after overwriting the entry at `i`, which holds key `k`. */
  lemma ReplacedGet(fs: seq<Field>, k: string, v: Json, i: nat)
    requires Find(fs, k) == Some(i)
    ensures Get(fs[i := Field(k, v)], k) == Some(v)
    ensures forall k' :: k' != k ==> Get(fs[i := Field(k, v)], k') == Get(fs, k')
  {
    var r := fs[i := Field(k, v)];
    forall k' ensures Find(r, k') == Find(fs, k') {
      FindSameKeys(fs, r, k');
    }
  }

  /** Two dicts with the same keys in the same places. */
  lemma SameKeys(a: seq<Field>, b: seq<Field>)
    requires |a| == |b| && forall j :: 0 <= j < |a| ==> a[j].key == b[j].key
    ensures KeySet(a) == KeySet(b) && Keys(a) == Keys(b)
    ensures UniqueKeys(a) ==> UniqueKeys(b)
    ensures forall k :: Find(a, k) == Find(b, k)
  {
    assert forall j :: 0 <= j < |a| ==> Keys(a)[j] == Keys(b)[j];
    forall k ensures Find(a, k) == Find(b, k) {
      FindSameKeys(a, b, k);
    }
  }

  lemma PutAbsent(fs: seq<Field>, k: string, v: Json)
    requires Find(fs, k).None?
    ensures Put(fs, k, v) == fs + [Field(k, v)]
    ensures Get(Put(fs, k, v), k) == Some(v)
    ensures forall k' :: k' != k ==> Get(Put(fs, k, v), k') == Get(fs, k')
    ensures KeySet(Put(fs, k, v)) == KeySet(fs) + {k}
    ensures UniqueKeys(fs) ==> UniqueKeys(Put(fs, k, v))
  {
    var r := fs + [Field(k, v)];
    assert KeySet(r) == KeySet(fs) + {k} by {
      assert r[|fs|].key == k;
      forall x | x in KeySet(r) ensures x in KeySet(fs) + {k} {
        var j :| 0 <= j < |r| && r[j].key == x;
      }
      forall x | x in KeySet(fs) ensures x in KeySet(r) {
        var j :| 0 <= j < |fs| && fs[j].key == x;
        assert r[j].key == x;
      }
    }
    forall k' | k' != k ensures Find(r, k') == Find(fs, k') {
      FindAppend(fs, Field(k, v), k');
    }
    FindAppendNew(fs, v, k);
    if UniqueKeys(fs) {
      forall j | 0 <= j < |fs| ensures fs[j].key != k {
        assert fs[j].key in KeySet(fs);
      }
    }
  }

  lemma FindSameKeys(a: seq<Field>, b: seq<Field>, k: string)
    requires |a| == |b| && forall j :: 0 <= j < |a| ==> a[j].key == b[j].key
    ensures Find(a, k) == Find(b, k)
  {
    if a != [] && a[0].key != k {
      FindSameKeys(a[1..], b[1..], k);
    }
  }

  lemma FindAppend(fs: seq<Field>, f: Field, k: string)
    requires f.key != k
    ensures Find(fs + [f], k) == Find(fs, k)
  {
    if fs != [] && fs[0].key != k {
      assert (fs + [f])[1..] == fs[1..] + [f];
      FindAppend(fs[1..], f, k);
    }
  }

  lemma FindAppendNew(fs: seq<Field>, v: Json, k: string)
    requires k !in KeySet(fs)
    ensures Find(fs + [Field(k, v)], k) == Some(|fs|)
  {
    if fs != [] {
      assert fs[0].key in KeySet(fs);
      assert (fs + [Field(k, v)])[1..] == fs[1..] + [Field(k, v)];
      assert Find(fs[1..], k).None?;
      FindAppendNew(fs[1..], v, k);
    }
  }

  /** Assigning the value a key already holds changes nothing. */
  lemma PutSame(fs: seq<Field>, k: string, v: Json)
    requires Get(fs, k) == Some(v)
    ensures Put(fs, k, v) == fs
  {
    var i := Find(fs, k).value;
    assert fs[i] == Field(k, v);
  }

  /** A second assignment to the same key overrides the first. */
  lemma PutPut(fs: seq<Field>, k: string, v1: Json, v2: Json)
    ensures Put(Put(fs, k, v1), k, v2) == Put(fs, k, v2)
  {
    var r := Put(fs, k, v1);
    match Find(fs, k)
    case Some(i) =>
      assert r == fs[i := Field(k, v1)];
      FindSameKeys(fs, r, k);
      assert Find(r, k) == Some(i);
      assert r[i := Field(k, v2)] == fs[i := Field(k, v2)];
    case None =>
      assert r == fs + [Field(k, v1)];
      FindAppendNew(fs, v1, k);
      assert Find(r, k) == Some(|fs|);
      assert r[|fs| := Field(k, v2)] == fs + [Field(k, v2)];
  }
}
