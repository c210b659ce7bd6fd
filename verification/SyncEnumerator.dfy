/** The two scan orders of cmd/syncEnumerator.go, run as syncEnumerator.enumerate of cmd/zc_enumerator.go runs them:
    traverse one side into the index, compare the other side, finalise what is left. */
module SyncEnumerator {
  import opened Common
  import opened SyncObjects
  import opened DeleteProcessor
  import opened SyncEngine

  // ---------- Shared pieces ----------

  /** The primary traverser's run: every object that passes the filters is stored. */
  method IndexAll(indexer: ObjectIndexer, objects: seq<StoredObject>, filters: seq<ObjectFilter>)
    requires indexer.indexMap == map[]
    modifies indexer`indexMap, indexer`counter
    ensures indexer.indexMap ==
            IndexOf(Kept(filters, objects), indexer.isDestinationCaseInsensitive, indexer.toLower)
  {
    for i := 0 to |objects|
      invariant indexer.indexMap ==
                IndexOf(Kept(filters, objects[..i]), indexer.isDestinationCaseInsensitive, indexer.toLower)
    {
      KeptNext(filters, objects, i);
      var passed := PassedFilters(filters, objects[i]);
      if passed {
        IndexNext(Kept(filters, objects[..i]), objects[i], indexer.isDestinationCaseInsensitive, indexer.toLower);
        indexer.Store(objects[i]);
      }
    }
    assert objects[..|objects|] == objects;
  }

  /** The objects under a list of keys that the folder option admits. */
  function Admitted(index: map<string, StoredObject>, order: seq<string>, fpo: FolderPropertyOption): seq<StoredObject>
    requires forall k | k in order :: k in index
  {
    if order == [] then []
    else
      var n := |order| - 1;
      Admitted(index, order[..n], fpo) + (if IsCompatibleWithFpo(index[order[n]], fpo) then [index[order[n]]] else [])
  }

  lemma AdmittedNext(index: map<string, StoredObject>, order: seq<string>, fpo: FolderPropertyOption, i: nat)
    requires i < |order| && forall k | k in order :: k in index
    ensures Admitted(index, order[..i + 1], fpo) == Admitted(index, order[..i], fpo) +
            (if IsCompatibleWithFpo(index[order[i]], fpo) then [index[order[i]]] else [])
  {
    assert order[..i + 1][..i] == order[..i];
  }

  lemma {:induction false} AdmittedMembers(index: map<string, StoredObject>, order: seq<string>, fpo: FolderPropertyOption)
    requires forall k | k in order :: k in index
    ensures forall o :: o in Admitted(index, order, fpo) <==>
                        exists k :: k in order && index[k] == o && IsCompatibleWithFpo(o, fpo)
  {
    if order != [] {
      var n := |order| - 1;
      AdmittedMembers(index, order[..n], fpo);
      assert order == order[..n] + [order[n]];
    }
  }

  lemma {:induction false} AdmittedFacts(index: map<string, StoredObject>, order: seq<string>, fpo: FolderPropertyOption,
                                         caseInsensitive: bool, toLower: string -> string)
    requires forall k | k in order :: k in index
    requires forall k | k in index :: KeyOf(index[k].relativePath, caseInsensitive, toLower) == k
    requires forall i, j | 0 <= i < j < |order| :: order[i] != order[j]
    ensures var r := Admitted(index, order, fpo);
            && NoDuplicates(r)
            && forall o :: o in r <==> exists k :: k in order && index[k] == o && IsCompatibleWithFpo(o, fpo)
  {
    AdmittedMembers(index, order, fpo);
    if order != [] {
      var n := |order| - 1;
      AdmittedFacts(index, order[..n], fpo, caseInsensitive, toLower);
      assert forall o | o in Admitted(index, order[..n], fpo) :: o != index[order[n]];
      AppendNoDuplicates(Admitted(index, order[..n], fpo), [index[order[n]]]);
    }
  }

  // ---------- Source first: uploads ----------

  ghost function PathsOf(objects: seq<StoredObject>): set<string> {
    set o | o in objects :: o.relativePath
  }

  /** A copy that is decided while the destinations seen are D. */
  ghost predicate Decided(S: seq<StoredObject>, D: seq<StoredObject>, opt: Options, o: StoredObject) {
    WantsCopy(S, D, opt, o) && o.relativePath in PathsOf(D)
  }

  ghost predicate UploadProgress(S: seq<StoredObject>, D: seq<StoredObject>, opt: Options, toLower: string -> string,
                                 index: map<string, StoredObject>, copies: seq<StoredObject>, offered: seq<StoredObject>) {
    && index == IndexOf(S, false, toLower) - PathsOf(D)
    && NoDuplicates(copies) && (forall o :: o in copies <==> Decided(S, D, opt, o))
    && NoDuplicates(offered) && (forall o :: o in offered <==> IsExtra(S, D, opt, o))
  }

  lemma UploadStart(S: seq<StoredObject>, opt: Options, toLower: string -> string)
    ensures UploadProgress(S, [], opt, toLower, IndexOf(S, false, toLower), [], [])
  {
    assert PathsOf([]) == {};
  }

  /** One destination decides exactly the copy of its source, or is offered to the cleaner. */
  lemma UploadStep(S: seq<StoredObject>, D: seq<StoredObject>, d: StoredObject, opt: Options, toLower: string -> string,
                   index: map<string, StoredObject>, copies: seq<StoredObject>, offered: seq<StoredObject>)
    requires DistinctPaths(S) && DistinctPaths(D + [d])
    requires UploadProgress(S, D, opt, toLower, index, copies, offered)
    ensures var source := Counterpart(index, d.relativePath, false, toLower);
            UploadProgress(S, D + [d], opt, toLower, IndexAfter(index, source, d), copies + CopyFor(source, d, opt),
                           offered + OfferFor(source, d, opt))
  {
    var source := Counterpart(index, d.relativePath, false, toLower);
    NewPath(D, d);
    SourceOf(S, D, d, toLower);
    assert PathsOf(D + [d]) == PathsOf(D) + {d.relativePath};
    assert IndexAfter(index, source, d) == index - {d.relativePath};
    UploadStepCopies(S, D, d, opt);
    DecidedCopy(S, d, opt, source);
    AppendNoDuplicates(copies, CopyFor(source, d, opt));
    UploadStepOffers(S, D, d, opt);
    AppendNoDuplicates(offered, OfferFor(source, d, opt));
  }

  /** The counterpart of a new destination is its source. */
  ghost predicate IsSourceOf(S: seq<StoredObject>, d: StoredObject, source: Option<StoredObject>) {
    if source.Some? then source.value in S && source.value.relativePath == d.relativePath
    else forall s | s in S :: s.relativePath != d.relativePath
  }

  lemma SourceOf(S: seq<StoredObject>, D: seq<StoredObject>, d: StoredObject, toLower: string -> string)
    requires DistinctPaths(S) && d.relativePath !in PathsOf(D)
    ensures IsSourceOf(S, d, Counterpart(IndexOf(S, false, toLower) - PathsOf(D), d.relativePath, false, toLower))
  {
    PlainIndexFacts(S, toLower);
  }

  /** The copy for a destination is what it decides. */
  lemma DecidedCopy(S: seq<StoredObject>, d: StoredObject, opt: Options, source: Option<StoredObject>)
    requires DistinctPaths(S) && IsSourceOf(S, d, source)
    ensures forall o :: o in CopyFor(source, d, opt) <==> o.relativePath == d.relativePath && WantsCopy(S, [d], opt, o)
  {
    forall o ensures o in CopyFor(source, d, opt) <==> o.relativePath == d.relativePath && WantsCopy(S, [d], opt, o) {
      assert forall e | e in [d] :: e == d;
      assert d in [d];
    }
  }

  lemma NewPath(D: seq<StoredObject>, d: StoredObject)
    requires DistinctPaths(D + [d])
    ensures d.relativePath !in PathsOf(D) && d !in D
  {
    forall o | o in D ensures o.relativePath != d.relativePath {
      var i :| 0 <= i < |D| && D[i] == o;
      assert (D + [d])[i] == o && (D + [d])[|D|] == d;
    }
  }

  lemma UploadStepOffers(S: seq<StoredObject>, D: seq<StoredObject>, d: StoredObject, opt: Options)
    ensures forall o :: IsExtra(S, D + [d], opt, o) <==> IsExtra(S, D, opt, o) || (o == d && IsExtra(S, [d], opt, d))
  {
  }

  lemma UploadStepCopies(S: seq<StoredObject>, D: seq<StoredObject>, d: StoredObject, opt: Options)
    requires d.relativePath !in PathsOf(D)
    ensures forall o :: Decided(S, D + [d], opt, o) <==>
              Decided(S, D, opt, o) || (o.relativePath == d.relativePath && WantsCopy(S, [d], opt, o))
  {
    assert PathsOf(D + [d]) == PathsOf(D) + {d.relativePath};
    forall o ensures Decided(S, D + [d], opt, o) <==>
              Decided(S, D, opt, o) || (o.relativePath == d.relativePath && WantsCopy(S, [d], opt, o)) {
      assert forall e | e in D :: e.relativePath in PathsOf(D);
    }
  }

  /** Adding the rest of the index to the decided copies gives the whole outcome. */
  lemma UploadEnd(S: seq<StoredObject>, D: seq<StoredObject>, opt: Options, toLower: string -> string,
                  index: map<string, StoredObject>, copies: seq<StoredObject>, offered: seq<StoredObject>, order: seq<string>)
    requires DistinctPaths(S)
    requires UploadProgress(S, D, opt, toLower, index, copies, offered)
    requires forall k :: k in order <==> k in index
    requires forall i, j | 0 <= i < j < |order| :: order[i] != order[j]
    ensures IsSyncOutcome(S, D, opt, copies + Admitted(index, order, opt.fpo), offered)
  {
    PlainIndexFacts(S, toLower);
    AdmittedFacts(index, order, opt.fpo, false, toLower);
    var rest := Admitted(index, order, opt.fpo);
    RestIsUndecided(S, D, opt, toLower, rest);
    AppendNoDuplicates(copies, rest);
  }

  /** What is left in the index is exactly what no destination decides. */
  lemma RestIsUndecided(S: seq<StoredObject>, D: seq<StoredObject>, opt: Options, toLower: string -> string,
                        rest: seq<StoredObject>)
    requires DistinctPaths(S)
    requires var index := IndexOf(S, false, toLower) - PathsOf(D);
             forall o :: o in rest <==> exists k :: k in index && index[k] == o && IsCompatibleWithFpo(o, opt.fpo)
    ensures forall o :: o in rest <==> WantsCopy(S, D, opt, o) && o.relativePath !in PathsOf(D)
  {
    PlainIndexFacts(S, toLower);
    var index := IndexOf(S, false, toLower) - PathsOf(D);
    forall o ensures o in rest <==> WantsCopy(S, D, opt, o) && o.relativePath !in PathsOf(D) {
      if o in S && o.relativePath !in PathsOf(D) {
        assert o.relativePath in index && index[o.relativePath] == o;
      }
    }
  }

  /** How the deleter treats what it is offered. */
  ghost predicate DeletedAsAnswered(mode: DeleteDestination, answers: nat -> Answer, deleteFails: nat -> bool, dryrun: bool,
                                    offered: seq<StoredObject>, removed: seq<StoredObject>, deletionCount: nat,
                                    prompts: nat) {
    var calls := if dryrun then [] else Chosen(mode, answers, offered);
    removed == RemovedBy(calls, deleteFails) && deletionCount == |calls| && prompts == Prompts(mode, answers, |offered|)
  }

  /** Uploads: the local source is indexed, the remote destination compared, the rest of the index copied. */
  method SyncSourceFirst(src: seq<StoredObject>, dst: seq<StoredObject>, filters: seq<ObjectFilter>, opt: Options,
                         mode: DeleteDestination, answers: nat -> Answer, deleteFails: nat -> bool, dryrun: bool,
                         toLower: string -> string)
    returns (copies: seq<StoredObject>, removed: seq<StoredObject>, deletionCount: nat, prompts: nat,
             offered: seq<StoredObject>)
    requires DistinctPaths(src) && DistinctPaths(dst)
    ensures IsSyncOutcome(Kept(filters, src), Kept(filters, dst), opt, copies, offered)
    ensures DeletedAsAnswered(mode, answers, deleteFails, dryrun, offered, removed, deletionCount, prompts)
  {
    var indexer := new ObjectIndexer(toLower);
    var scheduler := new CopyScheduler(opt.fpo);
    var deleter := new InteractiveDeleteProcessor(mode, answers, deleteFails, dryrun);
    var comparator := new SyncDestinationComparator(indexer, scheduler, deleter, opt.mirrorMode);

    EnumerateSourceFirst(comparator, src, dst, filters, opt);
    return scheduler.transfers, deleter.removed, deleter.deletionCount, deleter.prompts, deleter.offered;
  }

  /** syncEnumerator.enumerate: index the primary side, compare the secondary, finalise. */
  method EnumerateSourceFirst(comparator: SyncDestinationComparator, src: seq<StoredObject>, dst: seq<StoredObject>,
                              filters: seq<ObjectFilter>, opt: Options)
    requires DistinctPaths(src) && DistinctPaths(dst)
    requires comparator.sourceIndex.indexMap == map[] && !comparator.sourceIndex.isDestinationCaseInsensitive
    requires opt == Options(comparator.disableComparison, comparator.copyTransferScheduler.fpo)
    requires comparator.copyTransferScheduler.transfers == [] && comparator.destinationCleaner.offered == []
    requires comparator.destinationCleaner.Valid()
    modifies comparator.sourceIndex`indexMap, comparator.sourceIndex`counter, comparator.copyTransferScheduler,
             comparator.destinationCleaner
    ensures comparator.destinationCleaner.Valid()
    ensures IsSyncOutcome(Kept(filters, src), Kept(filters, dst), opt, comparator.copyTransferScheduler.transfers,
                          comparator.destinationCleaner.offered)
  {
    ghost var S, D := Kept(filters, src), Kept(filters, dst);
    KeptDistinctPaths(filters, src);
    KeptDistinctPaths(filters, dst);
    IndexAll(comparator.sourceIndex, src, filters);
    UploadStart(S, opt, comparator.sourceIndex.toLower);
    CompareDestinations(comparator, dst, filters, opt, S);
    ScheduleMissing(comparator, filters, opt, S, D);
  }

  /** The finalize closure: what is left in the index is scheduled. */
  method ScheduleMissing(comparator: SyncDestinationComparator, filters: seq<ObjectFilter>, opt: Options,
                         ghost S: seq<StoredObject>, ghost D: seq<StoredObject>)
    requires DistinctPaths(S) && forall s | s in S :: Passes(filters, s)
    requires ComparedUpTo(comparator, opt, S, D)
    modifies comparator.copyTransferScheduler
    ensures IsSyncOutcome(S, D, opt, comparator.copyTransferScheduler.transfers, comparator.destinationCleaner.offered)
  {
    var indexer, scheduler := comparator.sourceIndex, comparator.copyTransferScheduler;
    ghost var decided := scheduler.transfers;
    IndexFacts(S, false, indexer.toLower);
    ghost var order := ScheduleRest(indexer, scheduler, filters);
    UploadEnd(S, D, opt, indexer.toLower, indexer.indexMap, decided, comparator.destinationCleaner.offered, order);
  }

  /** objectIndexer.traverse with the scheduler: the filters are applied again, and drop nothing. */
  method ScheduleRest(indexer: ObjectIndexer, scheduler: CopyScheduler, filters: seq<ObjectFilter>)
    returns (ghost order: seq<string>)
    requires forall k | k in indexer.indexMap :: Passes(filters, indexer.indexMap[k])
    modifies scheduler
    ensures forall k :: k in order <==> k in indexer.indexMap
    ensures forall i, j | 0 <= i < j < |order| :: order[i] != order[j]
    ensures scheduler.transfers == old(scheduler.transfers) + Admitted(indexer.indexMap, order, scheduler.fpo)
  {
    var keys := AnyOrder(indexer.indexMap.Keys);
    for i := 0 to |keys|
      invariant scheduler.transfers == old(scheduler.transfers) + Admitted(indexer.indexMap, keys[..i], scheduler.fpo)
    {
      AdmittedNext(indexer.indexMap, keys, scheduler.fpo, i);
      var value := indexer.indexMap[keys[i]];
      var passed := PassedFilters(filters, value);
      if passed {
        scheduler.ScheduleCopyTransfer(value);
      }
    }
    assert keys[..|keys|] == keys;
    order := keys;
  }

  /** The comparator and what it works on are where the destinations D have brought them. */
  ghost predicate ComparedUpTo(comparator: SyncDestinationComparator, opt: Options, S: seq<StoredObject>,
                               D: seq<StoredObject>)
    reads comparator.sourceIndex, comparator.copyTransferScheduler, comparator.destinationCleaner
  {
    && comparator.destinationCleaner.Valid()
    && opt == Options(comparator.disableComparison, comparator.copyTransferScheduler.fpo)
    && !comparator.sourceIndex.isDestinationCaseInsensitive
    && UploadProgress(S, D, opt, comparator.sourceIndex.toLower, comparator.sourceIndex.indexMap,
                      comparator.copyTransferScheduler.transfers, comparator.destinationCleaner.offered)
  }

  /** The comparator's step on one destination. */
  method CompareOne(comparator: SyncDestinationComparator, d: StoredObject, opt: Options,
                    ghost S: seq<StoredObject>, ghost D: seq<StoredObject>)
    requires DistinctPaths(S) && DistinctPaths(D + [d])
    requires ComparedUpTo(comparator, opt, S, D)
    modifies comparator.sourceIndex`indexMap, comparator.copyTransferScheduler, comparator.destinationCleaner
    ensures ComparedUpTo(comparator, opt, S, D + [d])
  {
    UploadStep(S, D, d, opt, comparator.sourceIndex.toLower, comparator.sourceIndex.indexMap,
               comparator.copyTransferScheduler.transfers, comparator.destinationCleaner.offered);
    comparator.ProcessIfNecessary(d);
  }

  /** The secondary traverser's run over the destination. */
  method CompareDestinations(comparator: SyncDestinationComparator, dst: seq<StoredObject>, filters: seq<ObjectFilter>,
                             opt: Options, ghost S: seq<StoredObject>)
    requires DistinctPaths(S) && DistinctPaths(Kept(filters, dst))
    requires ComparedUpTo(comparator, opt, S, [])
    modifies comparator.sourceIndex`indexMap, comparator.copyTransferScheduler, comparator.destinationCleaner
    ensures ComparedUpTo(comparator, opt, S, Kept(filters, dst))
  {
    for j := 0 to |dst|
      invariant ComparedUpTo(comparator, opt, S, Kept(filters, dst[..j]))
    {
      KeptNext(filters, dst, j);
      var passed := PassedFilters(filters, dst[j]);
      if passed {
        KeptPrefixDistinct(filters, dst, j + 1);
        CompareOne(comparator, dst[j], opt, S, Kept(filters, dst[..j]));
      }
    }
    assert dst[..|dst|] == dst;
  }

  // ---------- Destination first: downloads and service-to-service ----------

  /** The first source of a key is compared with the indexed destination; any later one finds nothing and is copied. */
  predicate CopiesNext(index: map<string, StoredObject>, S: seq<StoredObject>, s: StoredObject, opt: Options,
                       caseInsensitive: bool, toLower: string -> string) {
    var key := KeyOf(s.relativePath, caseInsensitive, toLower);
    && IsCompatibleWithFpo(s, opt.fpo)
    && (opt.mirrorMode || key !in index || IsMoreRecentThan(s, index[key])
        || exists i :: 0 <= i < |S| && KeyOf(S[i].relativePath, caseInsensitive, toLower) == key)
  }

  /** The copies of a destination-first run, in the order scheduled. */
  function CopiesOf(index: map<string, StoredObject>, S: seq<StoredObject>, opt: Options,
                    caseInsensitive: bool, toLower: string -> string): seq<StoredObject> {
    if S == [] then []
    else
      var n := |S| - 1;
      CopiesOf(index, S[..n], opt, caseInsensitive, toLower) +
      (if CopiesNext(index, S[..n], S[n], opt, caseInsensitive, toLower) then [S[n]] else [])
  }

  /** What a destination-first run over S and D does, folding paths or not: the indexed destinations whose key no source
      has are offered to the cleaner, and no others. */
  ghost predicate IsFoldedOutcome(S: seq<StoredObject>, D: seq<StoredObject>, opt: Options, caseInsensitive: bool,
                                  toLower: string -> string, copies: seq<StoredObject>, offered: seq<StoredObject>) {
    var index := IndexOf(D, caseInsensitive, toLower);
    && copies == CopiesOf(index, S, opt, caseInsensitive, toLower)
    && NoDuplicates(offered)
    && forall o :: o in offered <==>
         exists k :: k in index && k !in KeysOf(S, caseInsensitive, toLower) && index[k] == o
                     && IsCompatibleWithFpo(o, opt.fpo)
  }

  /** The source comparator has gone through the sources S. */
  ghost predicate SourcesSeen(comparator: SyncSourceComparator, opt: Options, S: seq<StoredObject>, D: seq<StoredObject>)
    reads comparator.destinationIndex, comparator.copyTransferScheduler
  {
    var indexer, scheduler := comparator.destinationIndex, comparator.copyTransferScheduler;
    var ci, toLower := indexer.isDestinationCaseInsensitive, indexer.toLower;
    var index := IndexOf(D, ci, toLower);
    && opt == Options(comparator.disableComparison, scheduler.fpo)
    && indexer.indexMap == index - KeysOf(S, ci, toLower)
    && scheduler.transfers == CopiesOf(index, S, opt, ci, toLower)
  }

  method SeeSource(comparator: SyncSourceComparator, s: StoredObject, opt: Options,
                   ghost S: seq<StoredObject>, ghost D: seq<StoredObject>)
    requires SourcesSeen(comparator, opt, S, D)
    modifies comparator.destinationIndex`indexMap, comparator.copyTransferScheduler
    ensures SourcesSeen(comparator, opt, S + [s], D)
  {
    ghost var indexer := comparator.destinationIndex;
    SourceStep(IndexOf(D, indexer.isDestinationCaseInsensitive, indexer.toLower), S, s, opt,
               indexer.isDestinationCaseInsensitive, indexer.toLower);
    comparator.ProcessIfNecessary(s);
  }

  /** Looking the next source up in what is left of the index decides its copy. */
  lemma SourceStep(index: map<string, StoredObject>, S: seq<StoredObject>, s: StoredObject, opt: Options,
                   caseInsensitive: bool, toLower: string -> string)
    ensures var key := KeyOf(s.relativePath, caseInsensitive, toLower);
            var left := index - KeysOf(S, caseInsensitive, toLower);
            && index - KeysOf(S + [s], caseInsensitive, toLower) == left - {key}
            && CopiesOf(index, S + [s], opt, caseInsensitive, toLower) ==
               CopiesOf(index, S, opt, caseInsensitive, toLower) +
               (if (key in left ==> opt.mirrorMode || IsMoreRecentThan(s, left[key])) && IsCompatibleWithFpo(s, opt.fpo)
                then [s] else [])
  {
    var key := KeyOf(s.relativePath, caseInsensitive, toLower);
    assert (S + [s])[..|S|] == S;
    assert KeysOf(S + [s], caseInsensitive, toLower) == KeysOf(S, caseInsensitive, toLower) + {key};
    assert key in KeysOf(S, caseInsensitive, toLower) <==>
           exists i :: 0 <= i < |S| && KeyOf(S[i].relativePath, caseInsensitive, toLower) == key;
  }

  method SeeNext(comparator: SyncSourceComparator, src: seq<StoredObject>, j: nat, filters: seq<ObjectFilter>, opt: Options,
                 ghost D: seq<StoredObject>)
    requires j < |src| && SourcesSeen(comparator, opt, Kept(filters, src[..j]), D)
    modifies comparator.destinationIndex`indexMap, comparator.copyTransferScheduler
    ensures SourcesSeen(comparator, opt, Kept(filters, src[..j + 1]), D)
  {
    KeptNext(filters, src, j);
    var passed := PassedFilters(filters, src[j]);
    if passed {
      SeeSource(comparator, src[j], opt, Kept(filters, src[..j]), D);
    }
  }

  method SeeSources(comparator: SyncSourceComparator, src: seq<StoredObject>, filters: seq<ObjectFilter>, opt: Options,
                    ghost D: seq<StoredObject>)
    requires SourcesSeen(comparator, opt, [], D)
    modifies comparator.destinationIndex`indexMap, comparator.copyTransferScheduler
    ensures SourcesSeen(comparator, opt, Kept(filters, src), D)
  {
    for j := 0 to |src|
      invariant SourcesSeen(comparator, opt, Kept(filters, src[..j]), D)
    {
      SeeNext(comparator, src, j, filters, opt, D);
    }
    assert src[..|src|] == src;
  }

  /** objectIndexer.traverse with the deleter and no filters. */
  method OfferRest(indexer: ObjectIndexer, deleter: InteractiveDeleteProcessor, fpo: FolderPropertyOption)
    returns (ghost order: seq<string>)
    requires deleter.Valid()
    modifies deleter
    ensures deleter.Valid()
    ensures forall k :: k in order <==> k in indexer.indexMap
    ensures forall i, j | 0 <= i < j < |order| :: order[i] != order[j]
    ensures deleter.offered == old(deleter.offered) + Admitted(indexer.indexMap, order, fpo)
  {
    var keys := AnyOrder(indexer.indexMap.Keys);
    OfferInOrder(indexer.indexMap, keys, deleter, fpo);
    order := keys;
  }

  method OfferInOrder(index: map<string, StoredObject>, keys: seq<string>, deleter: InteractiveDeleteProcessor,
                      fpo: FolderPropertyOption)
    requires deleter.Valid() && forall k | k in keys :: k in index
    modifies deleter
    ensures deleter.Valid() && deleter.offered == old(deleter.offered) + Admitted(index, keys, fpo)
  {
    for i := 0 to |keys|
      invariant deleter.Valid()
      invariant deleter.offered == old(deleter.offered) + Admitted(index, keys[..i], fpo)
    {
      OfferOne(index, keys, i, deleter, fpo, old(deleter.offered));
    }
    assert keys[..|keys|] == keys;
  }

  method OfferOne(index: map<string, StoredObject>, keys: seq<string>, i: nat, deleter: InteractiveDeleteProcessor,
                  fpo: FolderPropertyOption, ghost before: seq<StoredObject>)
    requires deleter.Valid() && i < |keys| && forall k | k in keys :: k in index
    requires deleter.offered == before + Admitted(index, keys[..i], fpo)
    modifies deleter
    ensures deleter.Valid() && deleter.offered == before + Admitted(index, keys[..i + 1], fpo)
  {
    AdmittedNext(index, keys, fpo, i);
    // An error ends nothing: getProcessingError does not pass it on.
    var _ := Clean(fpo, deleter, index[keys[i]]);
  }

  /** The finalize closure: what is left in the index goes to the deleter. */
  method OfferLeftovers(comparator: SyncSourceComparator, deleter: InteractiveDeleteProcessor, opt: Options,
                        ghost S: seq<StoredObject>, ghost D: seq<StoredObject>)
    requires deleter.Valid() && deleter.offered == [] && SourcesSeen(comparator, opt, S, D)
    modifies deleter
    ensures deleter.Valid()
    ensures IsFoldedOutcome(S, D, opt, comparator.destinationIndex.isDestinationCaseInsensitive,
                            comparator.destinationIndex.toLower, comparator.copyTransferScheduler.transfers, deleter.offered)
  {
    var indexer := comparator.destinationIndex;
    ghost var order := OfferRest(indexer, deleter, opt.fpo);
    RestIsOffered(S, D, opt, indexer.isDestinationCaseInsensitive, indexer.toLower, order);
  }

  /** Downloads and service-to-service: the destination is indexed, the source compared, the rest of the index deleted. */
  method SyncDestinationFirst(src: seq<StoredObject>, dst: seq<StoredObject>, filters: seq<ObjectFilter>, opt: Options,
                              mode: DeleteDestination, answers: nat -> Answer, deleteFails: nat -> bool, dryrun: bool,
                              caseInsensitive: bool, toLower: string -> string)
    returns (copies: seq<StoredObject>, removed: seq<StoredObject>, deletionCount: nat, prompts: nat,
             offered: seq<StoredObject>)
    ensures IsFoldedOutcome(Kept(filters, src), Kept(filters, dst), opt, caseInsensitive, toLower, copies, offered)
    ensures DeletedAsAnswered(mode, answers, deleteFails, dryrun, offered, removed, deletionCount, prompts)
    ensures DistinctPaths(src) && DistinctPaths(dst) && !caseInsensitive ==>
              IsSyncOutcome(Kept(filters, src), Kept(filters, dst), opt, copies, offered)
  {
    var indexer := new ObjectIndexer(toLower);
    indexer.isDestinationCaseInsensitive := caseInsensitive;
    var scheduler := new CopyScheduler(opt.fpo);
    var comparator := new SyncSourceComparator(indexer, scheduler, opt.mirrorMode);

    IndexAll(indexer, dst, filters);
    ghost var S, D := Kept(filters, src), Kept(filters, dst);
    NothingSeen(comparator, opt, D);
    SeeSources(comparator, src, filters, opt, D);

    var deleter := new InteractiveDeleteProcessor(mode, answers, deleteFails, dryrun);
    OfferLeftovers(comparator, deleter, opt, S, D);
    copies, offered := scheduler.transfers, deleter.offered;
    UnfoldedRun(src, dst, filters, opt, caseInsensitive, toLower, copies, offered);
    return copies, deleter.removed, deleter.deletionCount, deleter.prompts, offered;
  }

  lemma NothingSeen(comparator: SyncSourceComparator, opt: Options, D: seq<StoredObject>)
    requires var indexer := comparator.destinationIndex;
             indexer.indexMap == IndexOf(D, indexer.isDestinationCaseInsensitive, indexer.toLower)
    requires opt == Options(comparator.disableComparison, comparator.copyTransferScheduler.fpo)
    requires comparator.copyTransferScheduler.transfers == []
    ensures SourcesSeen(comparator, opt, [], D)
  {
    var indexer := comparator.destinationIndex;
    assert KeysOf([], indexer.isDestinationCaseInsensitive, indexer.toLower) == {};
  }

  lemma UnfoldedRun(src: seq<StoredObject>, dst: seq<StoredObject>, filters: seq<ObjectFilter>, opt: Options,
                    caseInsensitive: bool, toLower: string -> string, copies: seq<StoredObject>, offered: seq<StoredObject>)
    requires IsFoldedOutcome(Kept(filters, src), Kept(filters, dst), opt, caseInsensitive, toLower, copies, offered)
    ensures DistinctPaths(src) && DistinctPaths(dst) && !caseInsensitive ==>
              IsSyncOutcome(Kept(filters, src), Kept(filters, dst), opt, copies, offered)
  {
    if DistinctPaths(src) && DistinctPaths(dst) && !caseInsensitive {
      KeptDistinctPaths(filters, src);
      KeptDistinctPaths(filters, dst);
      UnfoldedOutcome(Kept(filters, src), Kept(filters, dst), opt, toLower, copies, offered);
    }
  }

  /** Offering what is left in the index completes the outcome. */
  lemma RestIsOffered(S: seq<StoredObject>, D: seq<StoredObject>, opt: Options, caseInsensitive: bool,
                      toLower: string -> string, order: seq<string>)
    requires var rest := IndexOf(D, caseInsensitive, toLower) - KeysOf(S, caseInsensitive, toLower);
             forall k :: k in order <==> k in rest
    requires forall i, j | 0 <= i < j < |order| :: order[i] != order[j]
    ensures var index := IndexOf(D, caseInsensitive, toLower);
            IsFoldedOutcome(S, D, opt, caseInsensitive, toLower, CopiesOf(index, S, opt, caseInsensitive, toLower),
                            Admitted(index - KeysOf(S, caseInsensitive, toLower), order, opt.fpo))
  {
    IndexFacts(D, caseInsensitive, toLower);
    var index := IndexOf(D, caseInsensitive, toLower);
    var rest := index - KeysOf(S, caseInsensitive, toLower);
    AdmittedFacts(rest, order, opt.fpo, caseInsensitive, toLower);
    assert forall k | k in rest :: rest[k] == index[k];
  }

  /** Without folding the destination-first outcome is the specified one. */
  lemma UnfoldedOutcome(S: seq<StoredObject>, D: seq<StoredObject>, opt: Options, toLower: string -> string,
                        copies: seq<StoredObject>, offered: seq<StoredObject>)
    requires DistinctPaths(S) && DistinctPaths(D)
    requires IsFoldedOutcome(S, D, opt, false, toLower, copies, offered)
    ensures IsSyncOutcome(S, D, opt, copies, offered)
  {
    PlainIndexFacts(D, toLower);
    var index := IndexOf(D, false, toLower);
    UnfoldedCopies(S, D, opt, toLower);
    forall o ensures o in offered <==> IsExtra(S, D, opt, o) {
      if o in D {
        assert index[o.relativePath] == o;
        assert o.relativePath in KeysOf(S, false, toLower) <==> exists s :: s in S && s.relativePath == o.relativePath;
      }
    }
  }

  lemma {:induction false} UnfoldedCopies(S: seq<StoredObject>, D: seq<StoredObject>, opt: Options, toLower: string -> string)
    requires DistinctPaths(S) && DistinctPaths(D)
    ensures var copies := CopiesOf(IndexOf(D, false, toLower), S, opt, false, toLower);
            NoDuplicates(copies) && forall o :: o in copies <==> WantsCopy(S, D, opt, o)
  {
    if S != [] {
      var n := |S| - 1;
      UnfoldedCopies(S[..n], D, opt, toLower);
      PlainIndexFacts(D, toLower);
      assert S == S[..n] + [S[n]];
      NewPath(S[..n], S[n]);
      AppendNoDuplicates(CopiesOf(IndexOf(D, false, toLower), S[..n], opt, false, toLower), [S[n]]);
      assert CopiesNext(IndexOf(D, false, toLower), S[..n], S[n], opt, false, toLower) <==> WantsCopy(S, D, opt, S[n]);
    }
  }
}
