/** The sync engine: cmd/syncIndexer.go, cmd/syncComparator.go and the objects they
    work on. One side is indexed, the other is compared against the index. */
module SyncEngine {
  import opened Common
  import opened SyncObjects
  import opened DeleteProcessor

  // ---------- The specification ----------

  datatype Options = Options(mirrorMode: bool, fpo: FolderPropertyOption)

  /** Copied: the sources that are missing at the destination, newer than what is there, or, in mirror mode, all. */
  ghost predicate WantsCopy(S: seq<StoredObject>, D: seq<StoredObject>, opt: Options, o: StoredObject) {
    && o in S && IsCompatibleWithFpo(o, opt.fpo)
    && (opt.mirrorMode || forall d | d in D && d.relativePath == o.relativePath :: IsMoreRecentThan(o, d))
  }

  /** Offered to the cleaner: the destinations without a source. */
  ghost predicate IsExtra(S: seq<StoredObject>, D: seq<StoredObject>, opt: Options, o: StoredObject) {
    && o in D && IsCompatibleWithFpo(o, opt.fpo)
    && forall s | s in S :: s.relativePath != o.relativePath
  }

  /** What a run over S and D must do, whatever the scan order. */
  ghost predicate IsSyncOutcome(S: seq<StoredObject>, D: seq<StoredObject>, opt: Options,
                                copies: seq<StoredObject>, offered: seq<StoredObject>) {
    && NoDuplicates(copies) && (forall o :: o in copies <==> WantsCopy(S, D, opt, o))
    && NoDuplicates(offered) && (forall o :: o in offered <==> IsExtra(S, D, opt, o))
  }

  // ---------- The index ----------

  function KeyOf(path: string, caseInsensitive: bool, toLower: string -> string): string {
    if caseInsensitive then toLower(path) else path
  }

  /** The map objectIndexer.store builds: the last object of every key wins. */
  function IndexOf(objects: seq<StoredObject>, caseInsensitive: bool, toLower: string -> string): map<string, StoredObject> {
    if objects == [] then map[]
    else
      var last := objects[|objects| - 1];
      IndexOf(objects[..|objects| - 1], caseInsensitive, toLower)[KeyOf(last.relativePath, caseInsensitive, toLower) := last]
  }

  lemma IndexNext(objects: seq<StoredObject>, o: StoredObject, caseInsensitive: bool, toLower: string -> string)
    ensures IndexOf(objects + [o], caseInsensitive, toLower) ==
            IndexOf(objects, caseInsensitive, toLower)[KeyOf(o.relativePath, caseInsensitive, toLower) := o]
  {
    assert (objects + [o])[..|objects|] == objects;
  }

  ghost function KeysOf(objects: seq<StoredObject>, caseInsensitive: bool, toLower: string -> string): set<string> {
    set o | o in objects :: KeyOf(o.relativePath, caseInsensitive, toLower)
  }

  lemma {:induction false} IndexFacts(objects: seq<StoredObject>, caseInsensitive: bool, toLower: string -> string)
    ensures var m := IndexOf(objects, caseInsensitive, toLower);
            && m.Keys == KeysOf(objects, caseInsensitive, toLower)
            && (forall k | k in m :: m[k] in objects && KeyOf(m[k].relativePath, caseInsensitive, toLower) == k)
  {
    if objects != [] {
      var before := objects[..|objects| - 1];
      IndexFacts(before, caseInsensitive, toLower);
      assert objects == before + [objects[|objects| - 1]];
    }
  }

  /** Without folding, and with distinct paths, the index is exactly the objects by path. */
  lemma PlainIndexFacts(objects: seq<StoredObject>, toLower: string -> string)
    requires DistinctPaths(objects)
    ensures var m := IndexOf(objects, false, toLower);
            && (forall o | o in objects :: o.relativePath in m && m[o.relativePath] == o)
            && (forall p | p in m :: m[p] in objects && m[p].relativePath == p)
  {
    IndexFacts(objects, false, toLower);
    var m := IndexOf(objects, false, toLower);
    forall o | o in objects ensures o.relativePath in m && m[o.relativePath] == o {
      assert KeyOf(o.relativePath, false, toLower) in KeysOf(objects, false, toLower);
    }
  }

  class ObjectIndexer {
    const toLower: string -> string
    var indexMap: map<string, StoredObject>
    var counter: nat
    var isDestinationCaseInsensitive: bool

    constructor (toLower: string -> string)
      ensures indexMap == map[] && counter == 0 && !isDestinationCaseInsensitive && this.toLower == toLower
    {
      this.toLower := toLower;
      indexMap, counter, isDestinationCaseInsensitive := map[], 0, false;
    }

    method Store(o: StoredObject)
      modifies this`indexMap, this`counter
      ensures indexMap == old(indexMap)[KeyOf(o.relativePath, isDestinationCaseInsensitive, toLower) := o]
      ensures counter == old(counter) + 1
    {
      if isDestinationCaseInsensitive {
        var lcRelativePath := toLower(o.relativePath);
        indexMap := indexMap[lcRelativePath := o];
      } else {
        indexMap := indexMap[o.relativePath := o];
      }
      counter := counter + 1;
    }
  }

  /** The order in which Go happens to range over a map. */
  method AnyOrder(keys: set<string>) returns (order: seq<string>)
    ensures forall k :: k in order <==> k in keys
    ensures forall i, j | 0 <= i < j < |order| :: order[i] != order[j]
  {
    order := [];
    var rest := keys;
    while rest != {}
      invariant rest <= keys
      invariant forall k :: k in order <==> k in keys - rest
      invariant forall i, j | 0 <= i < j < |order| :: order[i] != order[j]
      decreases rest
    {
      var k :| k in rest;
      assert k !in order;
      assert forall i | 0 <= i < |order| :: order[i] in order;
      order, rest := order + [k], rest - {k};
    }
  }

  /** The copy transfer processor, as far as sync sees it: it drops what the folder option excludes. */
  class CopyScheduler {
    const fpo: FolderPropertyOption
    var transfers: seq<StoredObject>

    constructor (fpo: FolderPropertyOption)
      ensures transfers == [] && this.fpo == fpo
    {
      this.fpo, transfers := fpo, [];
    }

    method ScheduleCopyTransfer(o: StoredObject)
      modifies this
      ensures transfers == old(transfers) + (if IsCompatibleWithFpo(o, fpo) then [o] else [])
    {
      if IsCompatibleWithFpo(o, fpo) {
        transfers := transfers + [o];
      }
    }
  }

  /** newFpoAwareProcessor around removeImmediately. */
  method Clean(fpo: FolderPropertyOption, deleter: InteractiveDeleteProcessor, o: StoredObject) returns (failed: bool)
    requires deleter.Valid()
    modifies deleter
    ensures deleter.Valid()
    ensures deleter.offered == old(deleter.offered) + (if IsCompatibleWithFpo(o, fpo) then [o] else [])
  {
    failed := false;
    if IsCompatibleWithFpo(o, fpo) {
      failed := deleter.RemoveImmediately(o);
    }
  }

  // ---------- The comparators ----------

  /** The indexed source of a destination: looked up by path and, on a case-insensitive destination, by folded path. */
  function Counterpart(index: map<string, StoredObject>, path: string, caseInsensitive: bool, toLower: string -> string):
    Option<StoredObject>
  {
    if path in index then Some(index[path])
    else if caseInsensitive && toLower(path) in index then Some(index[toLower(path)])
    else None
  }

  /** What one destination does to the source index, the copies and the offers to the cleaner. */
  function IndexAfter(index: map<string, StoredObject>, source: Option<StoredObject>, d: StoredObject):
    map<string, StoredObject>
  {
    if source.Some? then index - {d.relativePath} else index
  }

  function CopyFor(source: Option<StoredObject>, d: StoredObject, opt: Options): seq<StoredObject> {
    if source.Some? && (opt.mirrorMode || IsMoreRecentThan(source.value, d)) && IsCompatibleWithFpo(source.value, opt.fpo)
    then [source.value] else []
  }

  function OfferFor(source: Option<StoredObject>, d: StoredObject, opt: Options): seq<StoredObject> {
    if source.None? && IsCompatibleWithFpo(d, opt.fpo) then [d] else []
  }

  class SyncDestinationComparator {
    const sourceIndex: ObjectIndexer
    const copyTransferScheduler: CopyScheduler
    const destinationCleaner: InteractiveDeleteProcessor
    const disableComparison: bool

    constructor (i: ObjectIndexer, copyScheduler: CopyScheduler, cleaner: InteractiveDeleteProcessor, disableComparison: bool)
      ensures sourceIndex == i && copyTransferScheduler == copyScheduler && destinationCleaner == cleaner
      ensures this.disableComparison == disableComparison
    {
      sourceIndex, copyTransferScheduler, destinationCleaner := i, copyScheduler, cleaner;
      this.disableComparison := disableComparison;
    }

    method ScheduleIfStale(sourceObjectInMap: StoredObject, d: StoredObject)
      modifies copyTransferScheduler
      ensures copyTransferScheduler.transfers == old(copyTransferScheduler.transfers)
              + CopyFor(Some(sourceObjectInMap), d, Options(disableComparison, copyTransferScheduler.fpo))
    {
      if disableComparison || IsMoreRecentThan(sourceObjectInMap, d) {
        copyTransferScheduler.ScheduleCopyTransfer(sourceObjectInMap);
      }
    }

    method ProcessIfNecessary(d: StoredObject)
      requires destinationCleaner.Valid()
      modifies sourceIndex`indexMap, copyTransferScheduler, destinationCleaner
      ensures destinationCleaner.Valid()
      ensures var index := old(sourceIndex.indexMap);
              var opt := Options(disableComparison, copyTransferScheduler.fpo);
              var source := Counterpart(index, d.relativePath, sourceIndex.isDestinationCaseInsensitive, sourceIndex.toLower);
              && sourceIndex.indexMap == IndexAfter(index, source, d)
              && copyTransferScheduler.transfers == old(copyTransferScheduler.transfers) + CopyFor(source, d, opt)
              && destinationCleaner.offered == old(destinationCleaner.offered) + OfferFor(source, d, opt)
    {
      var path := d.relativePath;
      var present := path in sourceIndex.indexMap;
      if !present && sourceIndex.isDestinationCaseInsensitive {
        path := sourceIndex.toLower(path);
        present := path in sourceIndex.indexMap;
      }
      if present {
        ScheduleIfStale(sourceIndex.indexMap[path], d);
        sourceIndex.indexMap := sourceIndex.indexMap - {d.relativePath};
      } else {
        // The cleaner's error is tolerated.
        var _ := Clean(copyTransferScheduler.fpo, destinationCleaner, d);
      }
    }
  }

  class SyncSourceComparator {
    const destinationIndex: ObjectIndexer
    const copyTransferScheduler: CopyScheduler
    const disableComparison: bool

    constructor (i: ObjectIndexer, copyScheduler: CopyScheduler, disableComparison: bool)
      ensures destinationIndex == i && copyTransferScheduler == copyScheduler && this.disableComparison == disableComparison
    {
      destinationIndex, copyTransferScheduler, this.disableComparison := i, copyScheduler, disableComparison;
    }

    method ProcessIfNecessary(s: StoredObject)
      modifies destinationIndex`indexMap, copyTransferScheduler
      ensures var index := old(destinationIndex.indexMap);
              var key := KeyOf(s.relativePath, destinationIndex.isDestinationCaseInsensitive, destinationIndex.toLower);
              && destinationIndex.indexMap == index - {key}
              && copyTransferScheduler.transfers == old(copyTransferScheduler.transfers) +
                   (if (key in index ==> disableComparison || IsMoreRecentThan(s, index[key]))
                       && IsCompatibleWithFpo(s, copyTransferScheduler.fpo) then [s] else [])
    {
      var relPath := s.relativePath;
      if destinationIndex.isDestinationCaseInsensitive {
        relPath := destinationIndex.toLower(relPath);
      }
      if relPath in destinationIndex.indexMap {
        var destinationObjectInMap := destinationIndex.indexMap[relPath];
        if disableComparison || IsMoreRecentThan(s, destinationObjectInMap) {
          copyTransferScheduler.ScheduleCopyTransfer(s);
        }
        destinationIndex.indexMap := destinationIndex.indexMap - {relPath};
        return;
      }
      assert destinationIndex.indexMap - {relPath} == destinationIndex.indexMap;
      copyTransferScheduler.ScheduleCopyTransfer(s);
    }
  }
}
