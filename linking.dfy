/**
 * The superclass/subclass linking pass that runs once every definition file
 * has been merged. Each namespace (the plain `AssetTypes` and the
 * `GameAssetTypes`) is an array of records, and the two are linked
 * separately. A record refers to others by their index in the same array.
 */
module Linking {
  import opened Wrappers

  /** The exact runtime type of a record in the `AssetTypes` collection. */
  datatype Kind = PlainAssetType | OtherAssetType

  /** What a record's `Entries` holds, as far as linking looks at it. */
  datatype FirstEntry =
    | NoEntries                 // Entries is null
    | EmptyEntries              // Entries is non-null but empty: Entries[0] throws
    | Inherits(parent: string)  // Entries[0] is exactly an EntryInheritanceType naming `parent`
    | OtherEntry                // Entries[0] is an entry of another kind

  /** An asset type record: `superclass` and `subclasses` are indices into the same namespace. */
  datatype AssetRecord = AssetRecord(id: string, kind: Kind, first: FirstEntry, superclass: Option<nat>, subclasses: seq<nat>)

  /** `AssetTypes` links only records whose exact type is AssetType; `GameAssetTypes` links all of its records. */
  datatype Namespace = AssetTypes | GameAssetTypes

  predicate InNamespace(r: AssetRecord, ns: Namespace)
  {
    ns == GameAssetTypes || r.kind == PlainAssetType
  }

  /** The test of the inner loop for the pair (asset `i`, other `j`): `j`'s first entry names `i`'s id. */
  predicate Links(s: seq<AssetRecord>, ns: Namespace, i: nat, j: nat)
    requires i < |s| && j < |s|
  {
    InNamespace(s[i], ns) && InNamespace(s[j], ns) && s[j].first == Inherits(s[i].id)
  }

  /** Some record the pass inspects has non-null, empty `Entries`, so the pass throws. */
  predicate Faulty(s: seq<AssetRecord>, ns: Namespace)
  {
    exists j :: 0 <= j < |s| && InNamespace(s[j], ns) && s[j].first == EmptyEntries
  }

  /** Every index a record holds points into the namespace. */
  predicate WellIndexed(s: seq<AssetRecord>)
  {
    forall k :: 0 <= k < |s| ==>
      (s[k].superclass.Some? ==> s[k].superclass.value < |s|) &&
      (forall m :: 0 <= m < |s[k].subclasses| ==> s[k].subclasses[m] < |s|)
  }

  /** The records among the first `n` that name record `i` as parent, in index order. */
  function ChildrenBelow(s: seq<AssetRecord>, ns: Namespace, i: nat, n: nat): seq<nat>
    requires i < |s| && n <= |s|
  {
    if n == 0 then []
    else ChildrenBelow(s, ns, i, n - 1) + (if Links(s, ns, i, n - 1) then [n - 1] else [])
  }

  /** Record `j`'s superclass once the assets below index `n` have been through the outer loop. */
  function ParentBelow(s: seq<AssetRecord>, ns: Namespace, j: nat, n: nat): Option<nat>
    requires j < |s| && n <= |s|
  {
    if n == 0 then s[j].superclass
    else if Links(s, ns, n - 1, j) then Some(n - 1)
    else ParentBelow(s, ns, j, n - 1)
  }

  /** Record `k` once the pass has handled every pair before (asset `i`, other `j`). */
  function Applied(s: seq<AssetRecord>, ns: Namespace, i: nat, j: nat, k: nat): AssetRecord
    requires i <= |s| && j <= |s| && k < |s|
  {
    var added := if k < i then ChildrenBelow(s, ns, k, |s|) else if k == i then ChildrenBelow(s, ns, k, j) else [];
    var sup := if i < |s| && k < j && Links(s, ns, i, k) then Some(i) else ParentBelow(s, ns, k, i);
    s[k].(subclasses := s[k].subclasses + added, superclass := sup)
  }

  /** The namespace after the pass: each record's children are appended, and its parent overwritten. */
  function Linked(s: seq<AssetRecord>, ns: Namespace): (r: seq<AssetRecord>)
    ensures |r| == |s|
  {
    seq(|s|, k requires 0 <= k < |s| =>
      s[k].(subclasses := s[k].subclasses + ChildrenBelow(s, ns, k, |s|), superclass := ParentBelow(s, ns, k, |s|)))
  }

  /**
   * The two nested loops of the constructor, for one namespace: for every
   * asset, and for every other record, when the other's first entry is an
   * inheritance declaration naming the asset's id, the other is appended to
   * the asset's subclasses and the asset becomes the other's superclass.
   * `ok` is false when `Entries[0]` would throw on an empty entry list.
   */
  method LinkNamespace(a: array<AssetRecord>, ns: Namespace) returns (ok: bool)
    modifies a
    ensures ok <==> !Faulty(old(a[..]), ns)
    ensures ok ==> a[..] == Linked(old(a[..]), ns)
  {
    ghost var s := a[..];
    ghost var checked := false;
    var i := 0;
    while i < a.Length
      invariant 0 <= i <= a.Length
      invariant forall k :: 0 <= k < a.Length ==> a[k] == Applied(s, ns, i, 0, k)
      invariant checked ==> !Faulty(s, ns)
      invariant !checked ==> forall k :: 0 <= k < i ==> !InNamespace(s[k], ns)
    {
      if InNamespace(a[i], ns) {
        ok := LinkAsset(a, ns, i, s);
        if !ok {
          return;
        }
        checked := true;
      } else {
        AppliedSkipAll(s, ns, i);
      }
      i := i + 1;
    }
    ok := true;
    AppliedDone(s, ns);
  }

  /**
   * The inner loop for the asset at index `i` of the namespace `s` the pass
   * started from: every other record is tested against it, in index order.
   */
  method LinkAsset(a: array<AssetRecord>, ns: Namespace, i: nat, ghost s: seq<AssetRecord>) returns (ok: bool)
    requires |s| == a.Length && i < a.Length && InNamespace(s[i], ns)
    requires forall k :: 0 <= k < a.Length ==> a[k] == Applied(s, ns, i, 0, k)
    modifies a
    ensures ok <==> !Faulty(s, ns)
    ensures ok ==> forall k :: 0 <= k < a.Length ==> a[k] == Applied(s, ns, i + 1, 0, k)
  {
    var j := 0;
    while j < a.Length
      invariant 0 <= j <= a.Length
      invariant forall k :: 0 <= k < a.Length ==> a[k] == Applied(s, ns, i, j, k)
      invariant forall k :: 0 <= k < j ==> !(InNamespace(s[k], ns) && s[k].first == EmptyEntries)
    {
      if InNamespace(a[j], ns) && a[j].first == EmptyEntries {
        return false;
      }
      LinkPair(a, ns, i, j, s);
      j := j + 1;
    }
    AppliedRowAll(s, ns, i);
    ok := true;
  }

  /** The innermost test for the pair (asset `i`, other `j`). */
  method LinkPair(a: array<AssetRecord>, ns: Namespace, i: nat, j: nat, ghost s: seq<AssetRecord>)
    requires |s| == a.Length && i < a.Length && j < a.Length && InNamespace(s[i], ns)
    requires forall k :: 0 <= k < a.Length ==> a[k] == Applied(s, ns, i, j, k)
    modifies a
    ensures forall k :: 0 <= k < a.Length ==> a[k] == Applied(s, ns, i, j + 1, k)
  {
    AppliedStepAll(s, ns, i, j);
    if InNamespace(a[j], ns) && a[j].first.Inherits? && a[j].first.parent == a[i].id {
      a[i] := a[i].(subclasses := a[i].subclasses + [j]);
      a[j] := a[j].(superclass := Some(i));
    }
  }

  lemma AppliedStepAll(s: seq<AssetRecord>, ns: Namespace, i: nat, j: nat)
    requires i < |s| && j < |s|
    ensures forall k :: 0 <= k < |s| ==>
      var before, after := Applied(s, ns, i, j, k), Applied(s, ns, i, j + 1, k);
      if Links(s, ns, i, j) then
        after == before.(subclasses := if k == i then before.subclasses + [j] else before.subclasses,
                         superclass := if k == j then Some(i) else before.superclass)
      else after == before
  {
    forall k | 0 <= k < |s| {
      AppliedStep(s, ns, i, j, k);
    }
  }

  lemma AppliedRowAll(s: seq<AssetRecord>, ns: Namespace, i: nat)
    requires i < |s|
    ensures forall k :: 0 <= k < |s| ==> Applied(s, ns, i, |s|, k) == Applied(s, ns, i + 1, 0, k)
  {
  }

  /** One inner step: the pair (`i`, `j`) appends `j` to `i`'s children and makes `i` the parent of `j` when they link. */
  lemma AppliedStep(s: seq<AssetRecord>, ns: Namespace, i: nat, j: nat, k: nat)
    requires i < |s| && j < |s| && k < |s|
    ensures var before, after := Applied(s, ns, i, j, k), Applied(s, ns, i, j + 1, k);
      if Links(s, ns, i, j) then
        after == before.(subclasses := if k == i then before.subclasses + [j] else before.subclasses,
                         superclass := if k == j then Some(i) else before.superclass)
      else after == before
  {
  }

  /** An asset outside the namespace is skipped without changing anything. */
  lemma AppliedSkip(s: seq<AssetRecord>, ns: Namespace, i: nat, k: nat)
    requires i < |s| && k < |s| && !InNamespace(s[i], ns)
    ensures Applied(s, ns, i, 0, k) == Applied(s, ns, i + 1, 0, k)
  {
    NoChildrenOutside(s, ns, i, |s|);
  }

  lemma AppliedSkipAll(s: seq<AssetRecord>, ns: Namespace, i: nat)
    requires i < |s| && !InNamespace(s[i], ns)
    ensures forall k :: 0 <= k < |s| ==> Applied(s, ns, i, 0, k) == Applied(s, ns, i + 1, 0, k)
  {
    forall k | 0 <= k < |s| {
      AppliedSkip(s, ns, i, k);
    }
  }

  /** After the last asset, every record is as Linked says. */
  lemma AppliedDone(s: seq<AssetRecord>, ns: Namespace)
    ensures forall k :: 0 <= k < |s| ==> Applied(s, ns, |s|, 0, k) == Linked(s, ns)[k]
  {
  }

  // ---- lemmas about the pass -------------------------------------------------

  /** A record outside the namespace gets no children. */
  lemma {:induction false} NoChildrenOutside(s: seq<AssetRecord>, ns: Namespace, i: nat, n: nat)
    requires i < |s| && n <= |s| && !InNamespace(s[i], ns)
    ensures ChildrenBelow(s, ns, i, n) == []
    decreases n
  {
    if n > 0 {
      NoChildrenOutside(s, ns, i, n - 1);
    }
  }

  /** The children of `i` are exactly the records that name it, each once, in increasing order. */
  lemma {:induction false} ChildrenExactly(s: seq<AssetRecord>, ns: Namespace, i: nat, n: nat)
    requires i < |s| && n <= |s|
    ensures forall j: nat :: j in ChildrenBelow(s, ns, i, n) <==> j < n && Links(s, ns, i, j)
    ensures forall p, q :: 0 <= p < q < |ChildrenBelow(s, ns, i, n)| ==>
      ChildrenBelow(s, ns, i, n)[p] < ChildrenBelow(s, ns, i, n)[q]
    decreases n
  {
    ChildrenMembers(s, ns, i, n);
    ChildrenIncreasing(s, ns, i, n);
  }

  lemma {:induction false} ChildrenMembers(s: seq<AssetRecord>, ns: Namespace, i: nat, n: nat)
    requires i < |s| && n <= |s|
    ensures forall j: nat :: j in ChildrenBelow(s, ns, i, n) <==> j < n && Links(s, ns, i, j)
    decreases n
  {
    if n > 0 {
      ChildrenMembers(s, ns, i, n - 1);
    }
  }

  lemma {:induction false} ChildrenIncreasing(s: seq<AssetRecord>, ns: Namespace, i: nat, n: nat)
    requires i < |s| && n <= |s|
    ensures forall p, q :: 0 <= p < q < |ChildrenBelow(s, ns, i, n)| ==>
      ChildrenBelow(s, ns, i, n)[p] < ChildrenBelow(s, ns, i, n)[q]
    decreases n
  {
    if n > 0 {
      ChildrenIncreasing(s, ns, i, n - 1);
      ChildrenMembers(s, ns, i, n - 1);
      var c := ChildrenBelow(s, ns, i, n - 1);
      forall p | 0 <= p < |c| ensures c[p] < n - 1 {
        assert c[p] in c;
      }
    }
  }

  /** A record's new superclass is the LAST record of its namespace it names, or its old one if it names none. */
  lemma {:induction false} ParentIsLast(s: seq<AssetRecord>, ns: Namespace, j: nat, n: nat)
    requires j < |s| && n <= |s|
    ensures (exists i :: 0 <= i < n && Links(s, ns, i, j)) ==>
      ParentBelow(s, ns, j, n).Some? && ParentBelow(s, ns, j, n).value < n
      && Links(s, ns, ParentBelow(s, ns, j, n).value, j)
      && forall i :: ParentBelow(s, ns, j, n).value < i < n ==> !Links(s, ns, i, j)
    ensures (forall i :: 0 <= i < n ==> !Links(s, ns, i, j)) ==> ParentBelow(s, ns, j, n) == s[j].superclass
    decreases n
  {
    if n > 0 {
      ParentIsLast(s, ns, j, n - 1);
    }
  }

  /** Ids, kinds and entries are untouched, and records outside the namespace are not changed at all. */
  lemma LinkedKeeps(s: seq<AssetRecord>, ns: Namespace)
    ensures forall k :: 0 <= k < |s| ==>
      Linked(s, ns)[k].id == s[k].id && Linked(s, ns)[k].kind == s[k].kind && Linked(s, ns)[k].first == s[k].first
    ensures forall k :: 0 <= k < |s| && !InNamespace(s[k], ns) ==> Linked(s, ns)[k] == s[k]
  {
    forall k | 0 <= k < |s| && !InNamespace(s[k], ns) ensures Linked(s, ns)[k] == s[k] {
      NoChildrenOutside(s, ns, k, |s|);
      ParentIsLast(s, ns, k, |s|);
    }
  }

  /**
   * What the pass does to every record of the namespace:
   * record `i` gains, in index order, exactly the records whose first entry
   * names `i`'s id; record `j`'s superclass becomes the last record it names,
   * or stays as it was when it names none (a dangling parent, no entries, or
   * another entry kind first).
   */
  lemma LinkedRelation(s: seq<AssetRecord>, ns: Namespace, i: nat, j: nat)
    requires i < |s| && j < |s|
    ensures var r := Linked(s, ns);
      && (j in r[i].subclasses <==> j in s[i].subclasses || Links(s, ns, i, j))
      && (r[j].superclass == Some(i) <==>
            (Links(s, ns, i, j) && forall m :: i < m < |s| ==> !Links(s, ns, m, j))
            || (s[j].superclass == Some(i) && forall m :: 0 <= m < |s| ==> !Links(s, ns, m, j)))
  {
    ChildrenExactly(s, ns, i, |s|);
    ParentIsLast(s, ns, j, |s|);
  }

  /** A parent id that no record of the namespace carries leaves the record as it was, without error. */
  lemma DanglingParent(s: seq<AssetRecord>, ns: Namespace, j: nat)
    requires j < |s| && s[j].first.Inherits?
    requires forall i :: 0 <= i < |s| ==> !(InNamespace(s[i], ns) && s[i].id == s[j].first.parent)
    ensures Linked(s, ns)[j].superclass == s[j].superclass
  {
    ParentIsLast(s, ns, j, |s|);
  }

  /** Linking keeps every index inside the namespace. */
  lemma LinkedWellIndexed(s: seq<AssetRecord>, ns: Namespace)
    requires WellIndexed(s)
    ensures WellIndexed(Linked(s, ns))
  {
    var r := Linked(s, ns);
    forall k | 0 <= k < |s|
      ensures r[k].superclass.Some? ==> r[k].superclass.value < |s|
      ensures forall m :: 0 <= m < |r[k].subclasses| ==> r[k].subclasses[m] < |s|
    {
      ChildrenExactly(s, ns, k, |s|);
      ParentIsLast(s, ns, k, |s|);
      var c := ChildrenBelow(s, ns, k, |s|);
      forall m | 0 <= m < |r[k].subclasses| ensures r[k].subclasses[m] < |s| {
        if m >= |s[k].subclasses| {
          assert r[k].subclasses[m] == c[m - |s[k].subclasses|] && c[m - |s[k].subclasses|] in c;
        }
      }
    }
  }

  /** Records straight from the loader: nothing linked yet. */
  predicate Unlinked(s: seq<AssetRecord>)
  {
    forall k :: 0 <= k < |s| ==> s[k].superclass == None && s[k].subclasses == []
  }

  /** No two records of the namespace share an id. */
  predicate UniqueIds(s: seq<AssetRecord>, ns: Namespace)
  {
    forall p, q :: 0 <= p < q < |s| && InNamespace(s[p], ns) && InNamespace(s[q], ns) ==> s[p].id != s[q].id
  }

  /**
   * Superclass and subclasses agree after linking fresh records: a record's
   * superclass lists it among its subclasses, and a record listed by a parent
   * has a superclass with that parent's id. With unique ids this is an
   * equivalence; with duplicate ids the record is a subclass of every record
   * sharing the id, and the superclass of only the last of them.
   */
  lemma LinkedConsistent(s: seq<AssetRecord>, ns: Namespace, i: nat, j: nat)
    requires i < |s| && j < |s| && Unlinked(s)
    ensures var r := Linked(s, ns);
      && (r[j].superclass == Some(i) ==> j in r[i].subclasses)
      && (j in r[i].subclasses ==> r[j].superclass.Some? && r[j].superclass.value < |s|
                                   && s[r[j].superclass.value].id == s[i].id)
      && (UniqueIds(s, ns) ==> (r[j].superclass == Some(i) <==> j in r[i].subclasses))
  {
    var r := Linked(s, ns);
    LinkedRelation(s, ns, i, j);
    ParentIsLast(s, ns, j, |s|);
    if j in r[i].subclasses {
      var m := r[j].superclass.value;
      LinkedRelation(s, ns, m, j);
    }
  }
}
