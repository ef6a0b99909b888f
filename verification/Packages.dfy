/** Package descriptors as the registry serves them, and the dependency table
    entry that the crawler derives from one descriptor. */
module Packages {

  type Name = string

  /** A JavaScript object used as a dictionary: its own properties, in insertion order. */
  type Dict = seq<(Name, string)>

  /** The part of one published version that the crawler reads.
      A missing table and an empty one are enumerated alike. */
  datatype Manifest = Manifest(dependencies: Dict, devDependencies: Dict)

  /** A registry descriptor. An empty `latest` stands for a missing dist-tag. */
  datatype Desc = Desc(name: Name, latest: string, versions: map<string, Manifest>)

  /** One entry of the crawler's dependency table. */
  datatype Record = Record(deps: Dict, devdeps: Dict, alldeps: Dict)

  function Keys(d: Dict): seq<Name> {
    seq(|d|, i requires 0 <= i < |d| => d[i].0)
  }

  function KeySet(d: Dict): set<Name> {
    set k | k in Keys(d)
  }

  /** Property names are unique in an object. */
  ghost predicate IsObject(d: Dict) {
    forall i, j :: 0 <= i < j < |d| ==> d[i].0 != d[j].0
  }

  /** Assignment `d[k] = v`: an existing property keeps its place. */
  function Put(d: Dict, k: Name, v: string): (r: Dict)
    ensures |r| == if k in Keys(d) then |d| else |d| + 1
  {
    if d == [] then [(k, v)]
    else
      assert Keys(d) == [d[0].0] + Keys(d[1..]);
      if d[0].0 == k then [(k, v)] + d[1..] else [d[0]] + Put(d[1..], k, v)
  }

  /** What a dictionary means: a finite map. */
  ghost function AsMap(d: Dict): map<Name, string> {
    if d == [] then map[] else AsMap(d[1..])[d[0].0 := d[0].1]
  }

  lemma {:induction false} AsMapKeys(d: Dict)
    ensures forall k :: k in AsMap(d) <==> k in Keys(d)
  {
    if d == [] {
    } else {
      AsMapKeys(d[1..]);
      assert Keys(d) == [d[0].0] + Keys(d[1..]);
    }
  }

  lemma IsObjectCons(d: Dict)
    requires d != []
    ensures IsObject(d) <==> IsObject(d[1..]) && d[0].0 !in Keys(d[1..])
  {
    var t := d[1..];
    assert Keys(d) == [d[0].0] + Keys(t);
    if IsObject(t) && d[0].0 !in Keys(t) {
      forall i, j | 0 <= i < j < |d| ensures d[i].0 != d[j].0 {
        assert Keys(t)[j - 1] == d[j].0;
        if i > 0 { assert t[i - 1].0 != t[j - 1].0; }
      }
    }
    if IsObject(d) {
      forall i, j | 0 <= i < j < |t| ensures t[i].0 != t[j].0 {
        assert d[i + 1].0 != d[j + 1].0;
      }
      forall j | 0 <= j < |t| ensures Keys(t)[j] != d[0].0 {
        assert d[0].0 != d[j + 1].0;
      }
    }
  }

  lemma {:induction false} PutMeaning(d: Dict, k: Name, v: string)
    requires IsObject(d)
    ensures IsObject(Put(d, k, v))
    ensures AsMap(Put(d, k, v)) == AsMap(d)[k := v]
  {
    if d == [] {
      assert Put(d, k, v)[1..] == [];
    } else {
      IsObjectCons(d);
      var t, r := d[1..], Put(d, k, v);
      if d[0].0 == k {
        assert r[1..] == t;
        IsObjectCons(r);
      } else {
        PutMeaning(t, k, v);
        assert r[1..] == Put(t, k, v);
        AsMapKeys(t);
        AsMapKeys(Put(t, k, v));
        IsObjectCons(r);
      }
    }
  }

  /** The effect of `for (k in e) d[k] = e[k]`. */
  function PutAll(d: Dict, e: Dict): Dict
    decreases |e|
  {
    if e == [] then d else PutAll(Put(d, e[0].0, e[0].1), e[1..])
  }

  lemma {:induction false} PutAllSnoc(d: Dict, e: Dict, k: Name, v: string)
    ensures PutAll(d, e + [(k, v)]) == Put(PutAll(d, e), k, v)
    decreases |e|
  {
    var f := e + [(k, v)];
    if e == [] {
      assert f[1..] == [];
    } else {
      assert f[1..] == e[1..] + [(k, v)];
      PutAllSnoc(Put(d, e[0].0, e[0].1), e[1..], k, v);
    }
  }

  lemma OverwriteCommutes(a: map<Name, string>, b: map<Name, string>, k: Name, v: string)
    requires k !in b
    ensures a[k := v] + b == a + b[k := v]
  {
  }

  lemma {:induction false} PutAllMeaning(d: Dict, e: Dict)
    requires IsObject(d) && IsObject(e)
    ensures IsObject(PutAll(d, e))
    ensures AsMap(PutAll(d, e)) == AsMap(d) + AsMap(e)
    decreases |e|
  {
    if e == [] {
    } else {
      var (k, v) := e[0];
      var d1, t := Put(d, k, v), e[1..];
      PutMeaning(d, k, v);
      IsObjectCons(e);
      AsMapKeys(t);
      PutAllMeaning(d1, t);
      assert AsMap(e) == AsMap(t)[k := v];
      OverwriteCommutes(AsMap(d), AsMap(t), k, v);
    }
  }

  /** Development dependencies first, then the run-time ones on top. */
  function AllDeps(m: Manifest): Dict {
    PutAll(PutAll([], m.devDependencies), m.dependencies)
  }

  function RecordOf(m: Manifest): Record {
    Record(m.dependencies, m.devDependencies, AllDeps(m))
  }

  /** Both tables are merged, each name once, and where they disagree on a
      version the run-time table wins. */
  lemma AllDepsMeaning(m: Manifest)
    requires IsObject(m.dependencies) && IsObject(m.devDependencies)
    ensures IsObject(AllDeps(m))
    ensures AsMap(AllDeps(m)) == AsMap(m.devDependencies) + AsMap(m.dependencies)
  {
    PutAllMeaning([], m.devDependencies);
    PutAllMeaning(PutAll([], m.devDependencies), m.dependencies);
  }

  lemma KeysCons(d: Dict)
    requires d != []
    ensures Keys(d) == [d[0].0] + Keys(d[1..])
  {
  }

  lemma {:induction false} PutKeys(d: Dict, k: Name, v: string)
    ensures Keys(Put(d, k, v)) == if k in Keys(d) then Keys(d) else Keys(d) + [k]
  {
    if d == [] {
    } else {
      var r := Put(d, k, v);
      KeysCons(d);
      KeysCons(r);
      if d[0].0 == k {
        assert r[1..] == d[1..];
      } else {
        PutKeys(d[1..], k, v);
        assert r[1..] == Put(d[1..], k, v);
      }
    }
  }

  /** The names not in `known`, in order. */
  function Without(names: seq<Name>, known: seq<Name>): seq<Name> {
    if names == [] then [] else (if names[0] in known then [] else [names[0]]) + Without(names[1..], known)
  }

  lemma {:induction false} WithoutMore(names: seq<Name>, known: seq<Name>, k: Name)
    requires k !in names
    ensures Without(names, known + [k]) == Without(names, known)
  {
    if names == [] {
    } else {
      WithoutMore(names[1..], known, k);
    }
  }

  lemma {:induction false} WithoutNone(names: seq<Name>)
    ensures Without(names, []) == names
  {
    if names == [] {
    } else {
      WithoutNone(names[1..]);
    }
  }

  lemma PutFirst(d: Dict, e: Dict)
    requires IsObject(e) && e != []
    ensures Keys(Put(d, e[0].0, e[0].1)) + Without(Keys(e[1..]), Keys(Put(d, e[0].0, e[0].1)))
         == Keys(d) + Without(Keys(e), Keys(d))
  {
    var k, known, more := e[0].0, Keys(d), Keys(e[1..]);
    PutKeys(d, k, e[0].1);
    IsObjectCons(e);
    assert Keys(e)[0] == k && Keys(e)[1..] == more;
    if k !in known {
      WithoutMore(more, known, k);
      assert known + [k] + Without(more, known) == known + ([k] + Without(more, known));
    } else {
      assert [] + Without(more, known) == Without(more, known);
    }
  }

  lemma {:induction false} PutAllKeys(d: Dict, e: Dict)
    requires IsObject(e)
    ensures Keys(PutAll(d, e)) == Keys(d) + Without(Keys(e), Keys(d))
    decreases |e|
  {
    if e == [] {
    } else {
      PutFirst(d, e);
      IsObjectCons(e);
      PutAllKeys(Put(d, e[0].0, e[0].1), e[1..]);
    }
  }

  /** What the table says of a package, against its published version: each table under its
      own name, and of the merged one which versions it holds and in which order it lists
      the names, those for development first. */
  ghost predicate RecordsManifest(r: Record, m: Manifest) {
    && r.deps == m.dependencies && r.devdeps == m.devDependencies
    && (IsObject(m.dependencies) && IsObject(m.devDependencies) ==>
         && AsMap(r.alldeps) == AsMap(m.devDependencies) + AsMap(m.dependencies)
         && Keys(r.alldeps) == Keys(m.devDependencies) + Without(Keys(m.dependencies), Keys(m.devDependencies)))
  }

  lemma RecordMeaning(m: Manifest)
    ensures RecordsManifest(RecordOf(m), m)
  {
    if IsObject(m.dependencies) && IsObject(m.devDependencies) {
      var none: Dict := [];
      AllDepsMeaning(m);
      PutAllKeys(none, m.devDependencies);
      WithoutNone(Keys(m.devDependencies));
      assert Keys(none) == [] && Keys(PutAll(none, m.devDependencies)) == Keys(m.devDependencies);
      PutAllKeys(PutAll(none, m.devDependencies), m.dependencies);
    }
  }
}
