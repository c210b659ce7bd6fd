/** The objects sync compares, and the filters they pass: parts of cmd/zc_enumerator.go. */
module SyncObjects {
  import opened Common

  /** Times are instants; 0 is Go's zero time. content stands for all attributes the engine copies but never reads. */
  datatype StoredObject = StoredObject(relativePath: string, entityType: EntityType, lastModifiedTime: int,
                                       smbLastModifiedTime: int, content: int)

  datatype FolderPropertyOption = NoFolders | AllFoldersExceptRoot | AllFolders

  /** The SMB time wins when it is known. */
  function EffectiveTime(o: StoredObject): int {
    if o.smbLastModifiedTime != 0 then o.smbLastModifiedTime else o.lastModifiedTime
  }

  predicate IsMoreRecentThan(a: StoredObject, b: StoredObject) {
    EffectiveTime(a) > EffectiveTime(b)
  }

  /** Which of two objects is newer, by the times that are known of each. */
  lemma RecencyByTimes(a: StoredObject, b: StoredObject)
    ensures a.smbLastModifiedTime == 0 && b.smbLastModifiedTime == 0 ==>
              (IsMoreRecentThan(a, b) <==> a.lastModifiedTime > b.lastModifiedTime)
    ensures a.smbLastModifiedTime != 0 && b.smbLastModifiedTime != 0 ==>
              (IsMoreRecentThan(a, b) <==> a.smbLastModifiedTime > b.smbLastModifiedTime)
    ensures a.smbLastModifiedTime != 0 && b.smbLastModifiedTime == 0 ==>
              (IsMoreRecentThan(a, b) <==> a.smbLastModifiedTime > b.lastModifiedTime)
    ensures a.smbLastModifiedTime == 0 && b.smbLastModifiedTime != 0 ==>
              (IsMoreRecentThan(a, b) <==> a.lastModifiedTime > b.smbLastModifiedTime)
  {
  }

  predicate IsSourceRootFolder(o: StoredObject) {
    o.relativePath == "" && o.entityType.Folder?
  }

  predicate IsCompatibleWithFpo(o: StoredObject, fpo: FolderPropertyOption) {
    o.entityType.File? || fpo.AllFolders? || (fpo.AllFoldersExceptRoot? && !IsSourceRootFolder(o))
  }

  /** An ObjectFilter of a supported operating system. */
  datatype ObjectFilter = ObjectFilter(appliesOnlyToFiles: bool, doesPass: StoredObject -> bool)

  /** File-only filters let folders through; all others are asked, and all must agree. */
  predicate Passes(filters: seq<ObjectFilter>, o: StoredObject) {
    forall i | 0 <= i < |filters| :: (filters[i].appliesOnlyToFiles && !o.entityType.File?) || filters[i].doesPass(o)
  }

  /** An object passes no filters at all, one filter that does not apply to it or accepts it, and two lists of filters
      if it passes both. */
  lemma FiltersCompose(a: seq<ObjectFilter>, b: seq<ObjectFilter>, f: ObjectFilter, o: StoredObject)
    ensures Passes([], o)
    ensures o.entityType.File? || !f.appliesOnlyToFiles ==> (Passes([f], o) <==> f.doesPass(o))
    ensures o.entityType.Folder? && f.appliesOnlyToFiles ==> Passes([f], o)
    ensures Passes(a + b, o) <==> Passes(a, o) && Passes(b, o)
  {
    assert [f][0] == f;
    if Passes(a + b, o) {
      assert forall i | 0 <= i < |a| :: (a + b)[i] == a[i];
      assert forall i | 0 <= i < |b| :: (a + b)[|a| + i] == b[i];
    }
  }

  method PassedFilters(filters: seq<ObjectFilter>, o: StoredObject) returns (passed: bool)
    ensures passed == Passes(filters, o)
  {
    for i := 0 to |filters|
      invariant Passes(filters[..i], o)
    {
      if filters[i].appliesOnlyToFiles && !o.entityType.File? {
        continue;
      }
      if !filters[i].doesPass(o) {
        return false;
      }
    }
    assert filters[..|filters|] == filters;
    return true;
  }

  /** What a traverser hands to its processor: the objects that pass, in the order met. */
  function Kept(filters: seq<ObjectFilter>, objects: seq<StoredObject>): (r: seq<StoredObject>)
    ensures forall o :: o in r <==> o in objects && Passes(filters, o)
  {
    if objects == [] then []
    else
      var last := objects[|objects| - 1];
      Kept(filters, objects[..|objects| - 1]) + (if Passes(filters, last) then [last] else [])
  }

  lemma KeptNext(filters: seq<ObjectFilter>, objects: seq<StoredObject>, i: nat)
    requires i < |objects|
    ensures Kept(filters, objects[..i + 1]) ==
            if Passes(filters, objects[i]) then Kept(filters, objects[..i]) + [objects[i]] else Kept(filters, objects[..i])
  {
    assert objects[..i + 1][..i] == objects[..i];
  }

  lemma {:induction false} KeptPrefix(filters: seq<ObjectFilter>, objects: seq<StoredObject>, n: nat)
    requires n <= |objects|
    ensures Kept(filters, objects[..n]) <= Kept(filters, objects)
  {
    if n == |objects| {
      assert objects[..n] == objects;
    } else {
      KeptPrefix(filters, objects[..|objects| - 1], n);
      assert objects[..|objects| - 1][..n] == objects[..n];
    }
  }

  /** The assumption the index rests on: one traversal never meets a path twice. */
  ghost predicate DistinctPaths(objects: seq<StoredObject>) {
    forall i, j | 0 <= i < j < |objects| :: objects[i].relativePath != objects[j].relativePath
  }

  lemma KeptPrefixDistinct(filters: seq<ObjectFilter>, objects: seq<StoredObject>, n: nat)
    requires n <= |objects| && DistinctPaths(Kept(filters, objects))
    ensures DistinctPaths(Kept(filters, objects[..n]))
  {
    KeptPrefix(filters, objects, n);
  }

  lemma OtherPaths(objects: seq<StoredObject>)
    requires DistinctPaths(objects) && objects != []
    ensures forall o | o in objects[..|objects| - 1] :: o.relativePath != objects[|objects| - 1].relativePath
  {
  }

  lemma AppendDistinct(objects: seq<StoredObject>, o: StoredObject)
    requires DistinctPaths(objects) && forall p | p in objects :: p.relativePath != o.relativePath
    ensures DistinctPaths(objects + [o])
  {
  }

  lemma {:induction false} KeptDistinctPaths(filters: seq<ObjectFilter>, objects: seq<StoredObject>)
    requires DistinctPaths(objects)
    ensures DistinctPaths(Kept(filters, objects))
  {
    if objects != [] {
      var before := objects[..|objects| - 1];
      KeptDistinctPaths(filters, before);
      OtherPaths(objects);
      AppendDistinct(Kept(filters, before), objects[|objects| - 1]);
    }
  }

  ghost predicate NoDuplicates(objects: seq<StoredObject>) {
    forall i, j | 0 <= i < j < |objects| :: objects[i] != objects[j]
  }

  lemma AppendNoDuplicates(a: seq<StoredObject>, b: seq<StoredObject>)
    requires NoDuplicates(a) && NoDuplicates(b) && forall o | o in a :: o !in b
    ensures NoDuplicates(a + b)
  {
    assert forall i | |a| <= i < |a + b| :: (a + b)[i] in b;
    assert forall i | 0 <= i < |a| :: (a + b)[i] in a;
  }

  /** Two duplicate-free lists of the same objects are permutations of each other. */
  lemma SameObjectsPermute(a: seq<StoredObject>, b: seq<StoredObject>)
    requires NoDuplicates(a) && NoDuplicates(b) && forall o :: o in a <==> o in b
    ensures multiset(a) == multiset(b)
  {
    forall o ensures multiset(a)[o] == multiset(b)[o] {
      CountInDuplicateFree(a, o);
      CountInDuplicateFree(b, o);
    }
  }

  lemma {:induction false} CountInDuplicateFree(a: seq<StoredObject>, o: StoredObject)
    requires NoDuplicates(a)
    ensures multiset(a)[o] == if o in a then 1 else 0
  {
    if a != [] {
      var n := |a| - 1;
      assert a == a[..n] + [a[n]];
      CountInDuplicateFree(a[..n], o);
    }
  }
}
