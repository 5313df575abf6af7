/** Package URL identifiers as chains of version 5 UUIDs. */
module Purl {
  import opened Results
  import opened Strings
  import opened Identifiers

  datatype Purl = Purl(
    ty: string, namespace: Option<string>, name: string, version: Option<string>, qualifiers: map<string, string>)

  type Entry = (string, string)

  /** How a `BTreeMap` yields its entries: each one once, keys ascending. */
  ghost predicate EntriesOf(es: seq<Entry>, m: map<string, string>) {
    && (forall i, j :: 0 <= i < j < |es| ==> Less(es[i].0, es[j].0))
    && (forall e :: e in es ==> e.0 in m && m[e.0] == e.1)
    && forall k :: k in m ==> (k, m[k]) in es
  }

  function VersionText(p: Purl): string {
    match p.version case Some(v) => v case None => ""
  }

  function PackageUuid(p: Purl): Uuid {
    var u := V5(Root, p.ty);
    var u := match p.namespace case Some(ns) => V5(u, ns) case None => u;
    V5(u, p.name)
  }

  function VersionUuid(p: Purl): Uuid {
    V5(PackageUuid(p), VersionText(p))
  }

  function Chain(u: Uuid, es: seq<Entry>): Uuid
    decreases es
  {
    if es == [] then u else Chain(V5(V5(u, es[0].0), es[0].1), es[1..])
  }

  ghost function QualifierUuid(p: Purl): Uuid {
    Chain(VersionUuid(p), SortedEntries(p.qualifiers))
  }

  /** `package_uuid`: one more link when there is a namespace. */
  method ComputePackageUuid(p: Purl) returns (u: Uuid)
    ensures u == PackageUuid(p)
  {
    u := V5(Root, p.ty);
    if p.namespace.Some? {
      u := V5(u, p.namespace.value);
    }
    u := V5(u, p.name);
  }

  /** The three identifiers; `entries` is the qualifier map as it iterates. */
  method Uuids(p: Purl, entries: seq<Entry>) returns (package: Uuid, version: Uuid, qualified: Uuid)
    requires EntriesOf(entries, p.qualifiers)
    ensures package == PackageUuid(p) && version == VersionUuid(p) && qualified == QualifierUuid(p)
  {
    package := ComputePackageUuid(p);
    version := V5(package, if p.version.Some? then p.version.value else "");
    qualified := version;
    for i := 0 to |entries|
      invariant Chain(qualified, entries[i..]) == Chain(version, entries)
    {
      assert entries[i..][1..] == entries[i + 1..];
      qualified := V5(qualified, entries[i].0);
      qualified := V5(qualified, entries[i].1);
    }
    SortedIsUnique(p.qualifiers, entries);
  }

  // ------------------------------------------------- sorted entries

  lemma {:induction false} Insert(es: seq<Entry>, m: map<string, string>, k: string, v: string) returns (r: seq<Entry>)
    requires EntriesOf(es, m) && k !in m
    ensures EntriesOf(r, m[k := v])
  {
    var i := 0;
    while i < |es| && Less(es[i].0, k)
      invariant 0 <= i <= |es|
      invariant forall j :: 0 <= j < i ==> Less(es[j].0, k)
    {
      i := i + 1;
    }
    r := es[..i] + [(k, v)] + es[i..];
    forall j | i <= j < |es| ensures Less(k, es[j].0) {
      assert es[i] in es && es[i].0 != k;
      LessIsStrict(es[i].0, k);
      if j > i {
        LessIsTransitive(k, es[i].0, es[j].0);
      }
    }
    InsertedEntries(es, m, k, v, i, r);
  }

  lemma InsertedEntries(es: seq<Entry>, m: map<string, string>, k: string, v: string, i: nat, r: seq<Entry>)
    requires EntriesOf(es, m) && k !in m && i <= |es| && r == es[..i] + [(k, v)] + es[i..]
    requires forall j :: 0 <= j < i ==> Less(es[j].0, k)
    requires forall j :: i <= j < |es| ==> Less(k, es[j].0)
    ensures EntriesOf(r, m[k := v])
  {
    assert forall e :: e in r <==> e in es || e == (k, v) by {
      assert es == es[..i] + es[i..];
    }
    var n := m[k := v];
    forall e | e in r ensures e.0 in n && n[e.0] == e.1 {
    }
    forall l | l in n ensures (l, n[l]) in r {
      assert l != k ==> (l, m[l]) in es;
    }
    InsertedOrder(es, k, v, i, r);
  }

  lemma InsertedOrder(es: seq<Entry>, k: string, v: string, i: nat, r: seq<Entry>)
    requires i <= |es| && r == es[..i] + [(k, v)] + es[i..]
    requires forall a, b :: 0 <= a < b < |es| ==> Less(es[a].0, es[b].0)
    requires forall j :: 0 <= j < i ==> Less(es[j].0, k)
    requires forall j :: i <= j < |es| ==> Less(k, es[j].0)
    ensures forall a, b :: 0 <= a < b < |r| ==> Less(r[a].0, r[b].0)
  {
    forall a, b | 0 <= a < b < |r| ensures Less(r[a].0, r[b].0) {
      assert a < i ==> r[a] == es[a];
      assert a > i ==> r[a] == es[a - 1];
      assert b < i ==> r[b] == es[b];
      assert b > i ==> r[b] == es[b - 1];
    }
  }

  lemma {:induction false} SortedExists(m: map<string, string>) returns (es: seq<Entry>)
    ensures EntriesOf(es, m)
    decreases |m|
  {
    if m == map[] {
      es := [];
    } else {
      var k :| k in m;
      var rest := m - {k};
      assert rest.Keys == m.Keys - {k};
      assert |rest.Keys| < |m.Keys|;
      es := SortedExists(rest);
      es := Insert(es, rest, k, m[k]);
      assert rest[k := m[k]] == m;
    }
  }

  ghost function SortedEntries(m: map<string, string>): (es: seq<Entry>)
    ensures EntriesOf(es, m)
  {
    assert exists es :: EntriesOf(es, m) by {
      var es := SortedExists(m);
    }
    var es :| EntriesOf(es, m);
    es
  }

  /** The first entry is determined by the map. */
  lemma FirstIsLeast(a: seq<Entry>, b: seq<Entry>, m: map<string, string>)
    requires EntriesOf(a, m) && EntriesOf(b, m)
    ensures a == [] <==> b == []
    ensures a != [] ==> a[0] == b[0]
  {
    if a != [] {
      assert a[0] in a;
      assert (a[0].0, m[a[0].0]) in b;
    }
    if b != [] {
      assert b[0] in b;
      assert (b[0].0, m[b[0].0]) in a;
    }
    if a != [] && a[0] != b[0] {
      var i :| 0 <= i < |a| && a[i] == b[0];
      var j :| 0 <= j < |b| && b[j] == a[0];
      assert Less(a[0].0, b[0].0) && Less(b[0].0, a[0].0);
      LessIsStrict(a[0].0, b[0].0);
    }
  }

  lemma TailEntries(es: seq<Entry>, m: map<string, string>)
    requires EntriesOf(es, m) && es != []
    ensures EntriesOf(es[1..], m - {es[0].0})
  {
    var k, rest := es[0].0, es[1..];
    assert es == [es[0]] + rest;
    forall e | e in rest ensures e.0 != k && e in es {
      var i :| 0 <= i < |rest| && rest[i] == e;
      assert es[i + 1] == e;
      LessIsStrict(k, e.0);
    }
  }

  /** Insertion order plays no part: a map has exactly one sorted sequence of entries. */
  lemma {:induction false} SortedSame(a: seq<Entry>, b: seq<Entry>, m: map<string, string>)
    requires EntriesOf(a, m) && EntriesOf(b, m)
    ensures a == b
  {
    FirstIsLeast(a, b, m);
    if a != [] {
      TailEntries(a, m);
      TailEntries(b, m);
      SortedSame(a[1..], b[1..], m - {a[0].0});
      assert a == [a[0]] + a[1..] && b == [b[0]] + b[1..];
    }
  }

  lemma SortedIsUnique(m: map<string, string>, es: seq<Entry>)
    ensures EntriesOf(es, m) <==> es == SortedEntries(m)
  {
    if EntriesOf(es, m) {
      SortedSame(es, SortedEntries(m), m);
    }
  }

  lemma SortedDetermines(m: map<string, string>, n: map<string, string>)
    requires SortedEntries(m) == SortedEntries(n)
    ensures m == n
  {
    var es := SortedEntries(m);
    assert forall k :: k in m ==> (k, m[k]) in es && k in n && n[k] == m[k];
    assert forall k :: k in n ==> (k, n[k]) in es && k in m;
  }

  // ------------------------------------------------- injectivity

  lemma {:induction false} ChainDepth(u: Uuid, es: seq<Entry>)
    ensures Depth(Chain(u, es)) == Depth(u) + 2 * |es|
    decreases es
  {
    if es != [] {
      ChainDepth(V5(V5(u, es[0].0), es[0].1), es[1..]);
    }
  }

  lemma {:induction false} ChainInjective(u: Uuid, es: seq<Entry>, w: Uuid, fs: seq<Entry>)
    requires |es| == |fs| && Chain(u, es) == Chain(w, fs)
    ensures u == w && es == fs
    decreases es
  {
    if es != [] {
      ChainInjective(V5(V5(u, es[0].0), es[0].1), es[1..], V5(V5(w, fs[0].0), fs[0].1), fs[1..]);
      assert es == [es[0]] + es[1..] && fs == [fs[0]] + fs[1..];
    }
  }

  lemma PackageDepth(p: Purl)
    ensures Depth(PackageUuid(p)) == if p.namespace.Some? then 3 else 2
    ensures Depth(QualifierUuid(p)) == Depth(PackageUuid(p)) + 1 + 2 * |SortedEntries(p.qualifiers)|
  {
    assert Depth(V5(Root, p.ty)) == 1;
    ChainDepth(VersionUuid(p), SortedEntries(p.qualifiers));
  }

  predicate SamePackage(p: Purl, q: Purl) {
    p.ty == q.ty && p.namespace == q.namespace && p.name == q.name
  }

  /**
   * Main result: the qualified identifier tells package URLs apart, except that a missing version
   * is the same as an empty one. Whether there is a namespace shows in the parity of the chain.
   */
  lemma QualifierUuidInjective(p: Purl, q: Purl)
    ensures QualifierUuid(p) == QualifierUuid(q)
       <==> SamePackage(p, q) && VersionText(p) == VersionText(q) && p.qualifiers == q.qualifiers
  {
    if QualifierUuid(p) == QualifierUuid(q) {
      PackageDepth(p);
      PackageDepth(q);
      ChainInjective(VersionUuid(p), SortedEntries(p.qualifiers), VersionUuid(q), SortedEntries(q.qualifiers));
      SortedDetermines(p.qualifiers, q.qualifiers);
    }
  }

  /**
   * Identifiers of different levels can meet: a namespaced package has the identifier of a version
   * of the package named like its namespace. They are kept in different tables.
   */
  lemma PackageMeetsVersion(p: Purl, q: Purl)
    ensures PackageUuid(p) == VersionUuid(q)
       <==> p.namespace == Some(q.name) && q.namespace == None && p.ty == q.ty && p.name == VersionText(q)
  {
    PackageDepth(p);
    PackageDepth(q);
    assert Depth(VersionUuid(q)) == Depth(PackageUuid(q)) + 1;
  }

  // ------------------------------------------------- the order of the links

  lemma {:induction false} ChainAncestor(u: Uuid, es: seq<Entry>, k: nat)
    requires k <= Depth(u)
    ensures Ancestor(Chain(u, es), k) == Ancestor(u, k)
    decreases es
  {
    if es != [] {
      ChainAncestor(V5(V5(u, es[0].0), es[0].1), es[1..], k);
    }
  }

  /** What comes right after the type: the namespace, or the name where there is none. */
  function AfterType(p: Purl): string {
    if p.namespace.Some? then p.namespace.value else p.name
  }

  lemma AncestorsOf(p: Purl)
    ensures Ancestor(QualifierUuid(p), 1) == V5(Root, p.ty)
    ensures Ancestor(QualifierUuid(p), 2) == V5(V5(Root, p.ty), AfterType(p))
    ensures p.namespace.Some? ==> Ancestor(QualifierUuid(p), 3) == V5(V5(V5(Root, p.ty), p.namespace.value), p.name)
  {
    var first, second := V5(Root, p.ty), V5(V5(Root, p.ty), AfterType(p));
    for k := 1 to 4
      invariant k > 1 ==> Ancestor(QualifierUuid(p), 1) == first
      invariant k > 2 ==> Ancestor(QualifierUuid(p), 2) == second
      invariant k > 3 && p.namespace.Some? ==> Ancestor(QualifierUuid(p), 3) == V5(second, p.name)
    {
      Link(Root, p.ty, k);
      Link(first, AfterType(p), k);
      Link(second, p.name, k);
      Link(PackageUuid(p), VersionText(p), k);
      if k < 3 || p.namespace.Some? {
        ChainAncestor(VersionUuid(p), SortedEntries(p.qualifiers), k);
      }
    }
  }

  /** Package URLs share as many ancestors as they share leading texts: type, namespace if any, name. */
  lemma SharedAncestors(p: Purl, q: Purl)
    ensures Ancestor(QualifierUuid(p), 1) == Ancestor(QualifierUuid(q), 1) <==> p.ty == q.ty
    ensures Ancestor(QualifierUuid(p), 2) == Ancestor(QualifierUuid(q), 2)
       <==> p.ty == q.ty && AfterType(p) == AfterType(q)
    ensures p.namespace.Some? && q.namespace.Some? ==>
              (Ancestor(QualifierUuid(p), 3) == Ancestor(QualifierUuid(q), 3) <==> SamePackage(p, q))
  {
    AncestorsOf(p);
    AncestorsOf(q);
  }

  lemma {:induction false} ChainAppend(u: Uuid, es: seq<Entry>, e: Entry)
    ensures Chain(u, es + [e]) == V5(V5(Chain(u, es), e.0), e.1)
    decreases es
  {
    if es == [] {
      assert es + [e] == [e];
    } else {
      ChainAppend(V5(V5(u, es[0].0), es[0].1), es[1..], e);
      assert (es + [e])[1..] == es[1..] + [e];
    }
  }

  /** A qualifier whose key comes after all others adds two links: its key and, last, its value. */
  lemma GreatestQualifier(p: Purl, k: string, v: string)
    requires forall l :: l in p.qualifiers ==> Less(l, k)
    ensures QualifierUuid(p.(qualifiers := p.qualifiers[k := v])) == V5(V5(QualifierUuid(p), k), v)
  {
    var es, m := SortedEntries(p.qualifiers), p.qualifiers[k := v];
    LessIsStrict(k, k);
    assert EntriesOf(es + [(k, v)], m) by {
      InsertedEntries(es, p.qualifiers, k, v, |es|, es + [(k, v)]) by {
        assert es + [(k, v)] == es[..|es|] + [(k, v)] + es[|es|..];
        forall j | 0 <= j < |es| ensures Less(es[j].0, k) {
          assert es[j] in es;
        }
      }
    }
    SortedIsUnique(m, es + [(k, v)]);
    ChainAppend(VersionUuid(p), es, (k, v));
  }

  function ToBase(p: Purl): Purl {
    Purl(p.ty, p.namespace, p.name, None, map[])
  }

  function ToVersion(p: Purl): Purl {
    Purl(p.ty, p.namespace, p.name, p.version, map[])
  }

  /** Dropping detail drops exactly the later links of the chain. */
  lemma LevelsAgree(p: Purl)
    ensures PackageUuid(ToBase(p)) == PackageUuid(p)
    ensures QualifierUuid(ToVersion(p)) == VersionUuid(p)
    ensures QualifierUuid(ToBase(p)) == V5(PackageUuid(p), "")
    ensures QualifierUuid(p) == VersionUuid(p) <==> p.qualifiers == map[]
  {
    SortedIsUnique(map[], []);
    PackageDepth(p);
    if SortedEntries(p.qualifiers) == [] {
      SortedDetermines(p.qualifiers, map[]);
    }
  }
}
