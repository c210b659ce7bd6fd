/** What the outcome of a sync run means: both scan orders agree, the destination ends up like the source, a second run
    has nothing left to do, and folding never deletes a counterpart. */
module SyncTheorems {
  import opened Common
  import opened SyncObjects
  import opened DeleteProcessor
  import opened SyncEngine
  import opened SyncEnumerator

  /** Source first or destination first, in whatever order either side is met: the same copies and offers. */
  lemma ScanOrdersAgree(S: seq<StoredObject>, D: seq<StoredObject>, opt: Options,
                        copies1: seq<StoredObject>, offered1: seq<StoredObject>,
                        copies2: seq<StoredObject>, offered2: seq<StoredObject>)
    requires IsSyncOutcome(S, D, opt, copies1, offered1) && IsSyncOutcome(S, D, opt, copies2, offered2)
    ensures multiset(copies1) == multiset(copies2) && multiset(offered1) == multiset(offered2)
  {
    SameObjectsPermute(copies1, copies2);
    SameObjectsPermute(offered1, offered2);
  }

  // ---------- What a run does, in the fields of the objects ----------

  // As everywhere, S and D are what passes the filters on the two sides.

  /** A run copies a file that is at the destination too exactly when its time is later. The SMB time of either side
      counts when it is known, and the modified time when it is not; equal times copy nothing. */
  lemma CopiedIffNewer(S: seq<StoredObject>, D: seq<StoredObject>, opt: Options, copies: seq<StoredObject>,
                       offered: seq<StoredObject>, s: StoredObject, d: StoredObject)
    requires DistinctPaths(D) && IsSyncOutcome(S, D, opt, copies, offered) && !opt.mirrorMode
    requires s in S && s.entityType == File && d in D && d.relativePath == s.relativePath
    ensures s.smbLastModifiedTime == 0 && d.smbLastModifiedTime == 0 ==>
              (s in copies <==> s.lastModifiedTime > d.lastModifiedTime)
    ensures s.smbLastModifiedTime != 0 && d.smbLastModifiedTime != 0 ==>
              (s in copies <==> s.smbLastModifiedTime > d.smbLastModifiedTime)
    ensures s.smbLastModifiedTime != 0 && d.smbLastModifiedTime == 0 ==>
              (s in copies <==> s.smbLastModifiedTime > d.lastModifiedTime)
    ensures s.smbLastModifiedTime == 0 && d.smbLastModifiedTime != 0 ==>
              (s in copies <==> s.lastModifiedTime > d.smbLastModifiedTime)
  {
    assert s in copies <==> WantsCopy(S, D, opt, s);
    OnlyRival(D, d);
    RecencyByTimes(s, d);
  }

  lemma OnlyRival(D: seq<StoredObject>, d: StoredObject)
    requires DistinctPaths(D) && d in D
    ensures forall e | e in D && e.relativePath == d.relativePath :: e == d
  {
    ByPathFacts(D);
  }

  /** A source that is missing at the destination, and every source in mirror mode, is copied unless it is a folder that
      the option leaves out: every folder under NoFolders, and the one with the empty path under AllFoldersExceptRoot. */
  lemma MissingIsCopied(S: seq<StoredObject>, D: seq<StoredObject>, opt: Options, copies: seq<StoredObject>,
                        offered: seq<StoredObject>, s: StoredObject)
    requires IsSyncOutcome(S, D, opt, copies, offered) && s in S
    requires opt.mirrorMode || forall d | d in D :: d.relativePath != s.relativePath
    ensures s in copies <==> s.entityType == File || opt.fpo == AllFolders
                             || (opt.fpo == AllFoldersExceptRoot && s.relativePath != "")
  {
    assert s in copies <==> WantsCopy(S, D, opt, s);
  }

  /** A destination is offered for deletion exactly when no source has its path, unless it is a folder that the option
      leaves out. */
  lemma OfferedIffExtra(S: seq<StoredObject>, D: seq<StoredObject>, opt: Options, copies: seq<StoredObject>,
                        offered: seq<StoredObject>, d: StoredObject)
    requires IsSyncOutcome(S, D, opt, copies, offered) && d in D
    ensures d in offered <==>
              && (forall s | s in S :: s.relativePath != d.relativePath)
              && (d.entityType == File || opt.fpo == AllFolders
                  || (opt.fpo == AllFoldersExceptRoot && d.relativePath != ""))
  {
    assert d in offered <==> IsExtra(S, D, opt, d);
  }

  /** Without deletion, and in a dry run, nothing is deleted or counted; in a dry run that is so whatever is answered. */
  lemma NothingDeleted(mode: DeleteDestination, answers: nat -> Answer, deleteFails: nat -> bool, dryrun: bool,
                       offered: seq<StoredObject>, removed: seq<StoredObject>, deletionCount: nat, prompts: nat)
    requires DeletedAsAnswered(mode, answers, deleteFails, dryrun, offered, removed, deletionCount, prompts)
    requires dryrun || mode == DeleteDestination.False
    ensures removed == [] && deletionCount == 0
  {
    ChosenUnprompted(answers, offered);
  }

  // ---------- Case-insensitive destinations ----------

  /** No later object of D folds to the key of the i-th. */
  ghost predicate IsLastVariant(D: seq<StoredObject>, i: nat, toLower: string -> string)
    requires i < |D|
  {
    forall j | i < j < |D| :: toLower(D[j].relativePath) != toLower(D[i].relativePath)
  }

  /** The index holds the last object of a key. */
  lemma {:induction false} LastVariantIsIndexed(D: seq<StoredObject>, i: nat, toLower: string -> string)
    requires i < |D| && IsLastVariant(D, i, toLower)
    ensures (toLower(D[i].relativePath), D[i]) in IndexOf(D, true, toLower).Items
  {
    var n := |D| - 1;
    if i < n {
      assert forall j | i < j < n :: D[..n][j] == D[j];
      LastVariantIsIndexed(D[..n], i, toLower);
    }
  }

  lemma {:induction false} IndexedIsLastVariant(D: seq<StoredObject>, key: string, toLower: string -> string) returns (i: nat)
    requires key in IndexOf(D, true, toLower)
    ensures i < |D| && D[i] == IndexOf(D, true, toLower)[key]
    ensures toLower(D[i].relativePath) == key && IsLastVariant(D, i, toLower)
  {
    var n := |D| - 1;
    if toLower(D[n].relativePath) == key {
      i := n;
    } else {
      i := IndexedIsLastVariant(D[..n], key, toLower);
      assert forall j | 0 <= j < n :: D[..n][j] == D[j];
    }
  }

  /** A destination is offered to the cleaner exactly when no source folds to its key and it is the last one met of
      those that do; so no case variant of a source is ever deleted, however many sources fold to one key. */
  lemma FoldedOffersIff(S: seq<StoredObject>, D: seq<StoredObject>, opt: Options, toLower: string -> string,
                        copies: seq<StoredObject>, offered: seq<StoredObject>, d: StoredObject)
    requires IsFoldedOutcome(S, D, opt, true, toLower, copies, offered)
    ensures d in offered <==>
              && IsCompatibleWithFpo(d, opt.fpo)
              && (forall s | s in S :: toLower(s.relativePath) != toLower(d.relativePath))
              && exists i :: 0 <= i < |D| && D[i] == d && IsLastVariant(D, i, toLower)
  {
    IndexFacts(D, true, toLower);
    var index := IndexOf(D, true, toLower);
    var key := toLower(d.relativePath);
    assert key in KeysOf(S, true, toLower) <==> exists s :: s in S && toLower(s.relativePath) == key;
    if i :| 0 <= i < |D| && D[i] == d && IsLastVariant(D, i, toLower) {
      LastVariantIsIndexed(D, i, toLower);
      assert key in index && index[key] == d;
    }
    if k :| k in index && index[k] == d {
      var i := IndexedIsLastVariant(D, k, toLower);
      assert k == key && D[i] == d;
    }
  }

  ghost predicate DistinctKeys(D: seq<StoredObject>, toLower: string -> string) {
    forall i, j | 0 <= i < j < |D| :: toLower(D[i].relativePath) != toLower(D[j].relativePath)
  }

  /** On a destination that really is case-insensitive, no two objects of which fold to one key, the cleaner is offered
      exactly the objects that no source folds to. */
  lemma CaseInsensitiveOffersIff(S: seq<StoredObject>, D: seq<StoredObject>, opt: Options, toLower: string -> string,
                                 copies: seq<StoredObject>, offered: seq<StoredObject>, d: StoredObject)
    requires IsFoldedOutcome(S, D, opt, true, toLower, copies, offered) && DistinctKeys(D, toLower)
    ensures d in offered <==> d in D && IsCompatibleWithFpo(d, opt.fpo)
                              && forall s | s in S :: toLower(s.relativePath) != toLower(d.relativePath)
  {
    FoldedOffersIff(S, D, opt, toLower, copies, offered, d);
    if d in D {
      var i :| 0 <= i < |D| && D[i] == d;
      assert IsLastVariant(D, i, toLower);
    }
  }

  /** An earlier source of S folds to the key of the i-th. */
  ghost predicate HasEarlierVariant(S: seq<StoredObject>, i: nat, toLower: string -> string)
    requires i < |S|
  {
    exists j :: 0 <= j < i && toLower(S[j].relativePath) == toLower(S[i].relativePath)
  }

  /** The destination has an object of the same key that is not older. */
  ghost predicate UpToDate(D: seq<StoredObject>, s: StoredObject, toLower: string -> string) {
    exists d :: d in D && toLower(d.relativePath) == toLower(s.relativePath) && !IsMoreRecentThan(s, d)
  }

  ghost predicate WantsFoldedCopy(S: seq<StoredObject>, D: seq<StoredObject>, opt: Options, toLower: string -> string, i: nat)
    requires i < |S|
  {
    && IsCompatibleWithFpo(S[i], opt.fpo)
    && (opt.mirrorMode || HasEarlierVariant(S, i, toLower) || !UpToDate(D, S[i], toLower))
  }

  /** On a case-insensitive destination a source is copied, once, exactly when the folder option admits it and it is
      missing or newer under its key, or forced, or a variant of an earlier source. */
  lemma {:induction false} FoldedCopiesIff(S: seq<StoredObject>, D: seq<StoredObject>, opt: Options,
                                           toLower: string -> string, copies: seq<StoredObject>)
    requires DistinctPaths(S) && DistinctKeys(D, toLower)
    requires copies == CopiesOf(IndexOf(D, true, toLower), S, opt, true, toLower)
    ensures NoDuplicates(copies) && forall o | o in copies :: o in S
    ensures forall i | 0 <= i < |S| :: S[i] in copies <==> WantsFoldedCopy(S, D, opt, toLower, i)
  {
    if S != [] {
      var n := |S| - 1;
      var S' := S[..n];
      var before := CopiesOf(IndexOf(D, true, toLower), S', opt, true, toLower);
      FoldedCopiesIff(S', D, opt, toLower, before);
      assert S == S' + [S[n]];
      NewPath(S', S[n]);
      AppendNoDuplicates(before, [S[n]]);
      FoldedNext(S', S[n], D, opt, toLower);
      forall i | 0 <= i < n ensures S[i] in copies <==> WantsFoldedCopy(S, D, opt, toLower, i) {
        assert S[i] == S'[i] && S'[i] in S';
        VariantOfPrefix(S', S[n], i, toLower);
      }
    }
  }

  lemma FoldedNext(S: seq<StoredObject>, s: StoredObject, D: seq<StoredObject>, opt: Options, toLower: string -> string)
    requires DistinctKeys(D, toLower)
    ensures CopiesNext(IndexOf(D, true, toLower), S, s, opt, true, toLower)
            <==> WantsFoldedCopy(S + [s], D, opt, toLower, |S|)
  {
    IndexedVariant(D, s, toLower);
    assert forall j | 0 <= j < |S| :: (S + [s])[j] == S[j];
    assert (exists j :: 0 <= j < |S| && KeyOf(S[j].relativePath, true, toLower) == toLower(s.relativePath))
           <==> HasEarlierVariant(S + [s], |S|, toLower);
  }

  lemma VariantOfPrefix(S: seq<StoredObject>, s: StoredObject, i: nat, toLower: string -> string)
    requires i < |S|
    ensures HasEarlierVariant(S + [s], i, toLower) <==> HasEarlierVariant(S, i, toLower)
  {
    assert forall j | 0 <= j <= i :: (S + [s])[j] == S[j];
  }

  /** The index answers what is at the destination under a source's key. */
  lemma IndexedVariant(D: seq<StoredObject>, s: StoredObject, toLower: string -> string)
    requires DistinctKeys(D, toLower)
    ensures var index, key := IndexOf(D, true, toLower), toLower(s.relativePath);
            UpToDate(D, s, toLower) <==> key in index && !IsMoreRecentThan(s, index[key])
  {
    IndexFacts(D, true, toLower);
    forall d | d in D && toLower(d.relativePath) == toLower(s.relativePath)
      ensures KeyOf(s.relativePath, true, toLower) in KeysOf(D, true, toLower)
      ensures IndexOf(D, true, toLower)[toLower(s.relativePath)] == d
    {
      assert KeyOf(d.relativePath, true, toLower) in KeysOf(D, true, toLower);
    }
  }

  /** Folding is there to avoid infinite syncing, and does as long as sources do not fold together: once everything
      at the destination is up to date, a further run copies nothing exactly when no source that could be copied is a
      variant of an earlier one. */
  lemma FoldedSyncSettlesIff(S: seq<StoredObject>, D: seq<StoredObject>, opt: Options, toLower: string -> string,
                             copies: seq<StoredObject>, offered: seq<StoredObject>)
    requires DistinctPaths(S) && DistinctKeys(D, toLower) && !opt.mirrorMode
    requires IsFoldedOutcome(S, D, opt, true, toLower, copies, offered)
    requires forall s | s in S && IsCompatibleWithFpo(s, opt.fpo) :: UpToDate(D, s, toLower)
    ensures copies == [] <==>
            forall i | 0 <= i < |S| && IsCompatibleWithFpo(S[i], opt.fpo) :: !HasEarlierVariant(S, i, toLower)
  {
    FoldedCopiesIff(S, D, opt, toLower, copies);
    EmptyIff(copies);
  }

  /** With a source that has both "A" and "a", the second is copied in every run, however fresh the destination is. */
  lemma CaseVariantsNeverSettle(fpo: FolderPropertyOption, toLower: string -> string,
                                copies: seq<StoredObject>, offered: seq<StoredObject>)
    requires toLower("A") == toLower("a")
    requires var upper, lower := StoredObject("A", File, 1, 0, 0), StoredObject("a", File, 1, 0, 0);
             IsFoldedOutcome([upper, lower], [lower], Options(false, fpo), true, toLower, copies, offered)
    ensures StoredObject("a", File, 1, 0, 0) in copies
  {
    var S := [StoredObject("A", File, 1, 0, 0), StoredObject("a", File, 1, 0, 0)];
    FoldedCopiesIff(S, [S[1]], Options(false, fpo), toLower, copies);
    assert HasEarlierVariant(S, 1, toLower);
    assert WantsFoldedCopy(S, [S[1]], Options(false, fpo), toLower, 1);
  }

  // ---------- The destination after the run ----------

  function SamePath(path: string): string {
    path
  }

  /** Objects by path. */
  function ByPath(objects: seq<StoredObject>): map<string, StoredObject> {
    IndexOf(objects, false, SamePath)
  }

  lemma ByPathFacts(objects: seq<StoredObject>)
    requires DistinctPaths(objects)
    ensures forall o | o in objects :: o.relativePath in ByPath(objects) && ByPath(objects)[o.relativePath] == o
    ensures forall p | p in ByPath(objects) :: ByPath(objects)[p] in objects && ByPath(objects)[p].relativePath == p
  {
    PlainIndexFacts(objects, SamePath);
  }

  /** What the transfer engine and the deleter do to the destination. */
  datatype Action = Put(landed: StoredObject) | Remove(path: string) {
    function Path(): string {
      if Put? then landed.relativePath else path
    }
  }

  function Apply(store: map<string, StoredObject>, a: Action): map<string, StoredObject> {
    match a
    case Put(landed) => store[landed.relativePath := landed]
    case Remove(path) => store - {path}
  }

  function ApplyAll(store: map<string, StoredObject>, actions: seq<Action>): map<string, StoredObject> {
    if actions == [] then store else Apply(ApplyAll(store, actions[..|actions| - 1]), actions[|actions| - 1])
  }

  /** Every copy and removal of the run is carried out at least once and nothing else is, in any interleaving;
      a copied source arrives as landed(source). */
  ghost predicate CarriesOut(actions: seq<Action>, copies: seq<StoredObject>, removed: seq<StoredObject>,
                             landed: StoredObject -> StoredObject) {
    && (forall o | o in copies :: Put(landed(o)) in actions)
    && (forall o | o in removed :: Remove(o.relativePath) in actions)
    && forall a | a in actions ::
         match a
         case Put(l) => exists o :: o in copies && landed(o) == l
         case Remove(p) => exists o :: o in removed && o.relativePath == p
  }

  /** A path no action is about is untouched. */
  lemma {:induction false} UntouchedPath(store: map<string, StoredObject>, actions: seq<Action>, p: string)
    requires forall a | a in actions :: a.Path() != p
    ensures p in ApplyAll(store, actions) <==> p in store
    ensures p in store ==> ApplyAll(store, actions)[p] == store[p]
  {
    if actions != [] {
      UntouchedPath(store, actions[..|actions| - 1], p);
      assert actions[|actions| - 1] in actions;
    }
  }

  /** A path is as its actions leave it when they are all the same. */
  lemma {:induction false} UniformPath(store: map<string, StoredObject>, actions: seq<Action>, a: Action)
    requires a in actions && forall b | b in actions && b.Path() == a.Path() :: b == a
    ensures if a.Put? then a.Path() in ApplyAll(store, actions) && ApplyAll(store, actions)[a.Path()] == a.landed
            else a.Path() !in ApplyAll(store, actions)
  {
    var n := |actions| - 1;
    assert actions == actions[..n] + [actions[n]];
    if actions[n].Path() != a.Path() {
      UniformPath(store, actions[..n], a);
    }
  }

  /** The destination path by path after a run: the landed source if it was copied, nothing if it was removed, and
      what was there before otherwise. */
  ghost predicate IsSettled(S: seq<StoredObject>, D: seq<StoredObject>, dst: seq<StoredObject>, opt: Options,
                            removed: seq<StoredObject>, landed: StoredObject -> StoredObject,
                            after: map<string, StoredObject>) {
    && (forall s | WantsCopy(S, D, opt, s) :: s.relativePath in after && after[s.relativePath] == landed(s))
    && (forall p | forall s | WantsCopy(S, D, opt, s) :: s.relativePath != p ::
          && (p in after <==> p in ByPath(dst) && ByPath(dst)[p] !in removed)
          && (p in after ==> after[p] == ByPath(dst)[p]))
  }

  /** Whatever the interleaving, carrying out a run's copies and deletions settles the destination. */
  lemma RunSettles(S: seq<StoredObject>, dst: seq<StoredObject>, filters: seq<ObjectFilter>, opt: Options,
                   copies: seq<StoredObject>, offered: seq<StoredObject>, removed: seq<StoredObject>,
                   landed: StoredObject -> StoredObject, actions: seq<Action>)
    requires DistinctPaths(S) && DistinctPaths(dst)
    requires IsSyncOutcome(S, Kept(filters, dst), opt, copies, offered)
    requires forall o | o in removed :: o in offered
    requires forall s | s in S :: landed(s).relativePath == s.relativePath
    requires CarriesOut(actions, copies, removed, landed)
    ensures IsSettled(S, Kept(filters, dst), dst, opt, removed, landed, ApplyAll(ByPath(dst), actions))
  {
    var D := Kept(filters, dst);
    var after := ApplyAll(ByPath(dst), actions);
    ByPathFacts(S);
    ByPathFacts(dst);
    forall s | WantsCopy(S, D, opt, s) ensures s.relativePath in after && after[s.relativePath] == landed(s) {
      CopiedPath(S, D, opt, copies, offered, removed, landed, actions, s);
      UniformPath(ByPath(dst), actions, Put(landed(s)));
    }
    forall p | forall s | WantsCopy(S, D, opt, s) :: s.relativePath != p
      ensures (p in after <==> p in ByPath(dst) && ByPath(dst)[p] !in removed)
      ensures p in after ==> after[p] == ByPath(dst)[p]
    {
      forall a | a in actions && a.Path() == p ensures a == Remove(p) && exists o :: o in removed && o.relativePath == p {
        if a.Put? {
          assert false;
        }
      }
      if o :| o in removed && o.relativePath == p {
        UniformPath(ByPath(dst), actions, Remove(p));
        assert o in dst && ByPath(dst)[p] == o;
      } else {
        UntouchedPath(ByPath(dst), actions, p);
      }
    }
  }

  /** All actions on a copied path put the same object there. */
  lemma CopiedPath(S: seq<StoredObject>, D: seq<StoredObject>, opt: Options, copies: seq<StoredObject>,
                   offered: seq<StoredObject>, removed: seq<StoredObject>, landed: StoredObject -> StoredObject,
                   actions: seq<Action>, s: StoredObject)
    requires DistinctPaths(S) && IsSyncOutcome(S, D, opt, copies, offered) && WantsCopy(S, D, opt, s)
    requires forall o | o in removed :: o in offered
    requires forall o | o in S :: landed(o).relativePath == o.relativePath
    requires CarriesOut(actions, copies, removed, landed)
    ensures Put(landed(s)) in actions
    ensures forall a | a in actions && a.Path() == s.relativePath :: a == Put(landed(s))
  {
    assert s in copies;
    forall a | a in actions && a.Path() == s.relativePath ensures a == Put(landed(s)) {
      if a.Put? {
        var o :| o in copies && landed(o) == a.landed;
        assert o in S && o.relativePath == s.relativePath;
        ByPathFacts(S);
        assert o == s;
      } else {
        assert false;
      }
    }
  }

  ghost predicate AllFiles(objects: seq<StoredObject>) {
    forall o | o in objects :: o.entityType.File?
  }

  /** Each source path holds the landed source or something not older than it. */
  ghost predicate SourcesArrived(S: seq<StoredObject>, dst: seq<StoredObject>, landed: StoredObject -> StoredObject,
                                 after: map<string, StoredObject>) {
    forall s | s in S :: s.relativePath in after &&
      (after[s.relativePath] == landed(s) ||
       (after[s.relativePath] in dst && !IsMoreRecentThan(s, after[s.relativePath])))
  }

  ghost predicate HasPath(objects: seq<StoredObject>, p: string) {
    exists o :: o in objects && o.relativePath == p
  }

  /** An excluded destination is untouched if no source has its path, and overwritten if one has: the comparison does
      not see it, so the source counts as missing. */
  ghost predicate ExcludedSettled(S: seq<StoredObject>, dst: seq<StoredObject>, filters: seq<ObjectFilter>,
                                  landed: StoredObject -> StoredObject, after: map<string, StoredObject>) {
    forall x | x in dst && !Passes(filters, x) ::
      && x.relativePath in after
      && (!HasPath(S, x.relativePath) ==> after[x.relativePath] == x)
      && (forall s | s in S && s.relativePath == x.relativePath :: after[x.relativePath] == landed(s))
  }

  /** There are the source's paths and those of excluded destinations, and no others. */
  ghost predicate PathsMirrored(S: seq<StoredObject>, dst: seq<StoredObject>, filters: seq<ObjectFilter>,
                                after: map<string, StoredObject>) {
    forall p :: p in after <==>
      (HasPath(S, p) || exists x :: x in dst && !Passes(filters, x) && x.relativePath == p)
  }

  /** None of the first n deletions fails. */
  predicate NoneFails(fails: nat -> bool, n: nat) {
    forall k | 0 <= k < n :: !fails(k)
  }

  lemma AllRemovedIff(calls: seq<StoredObject>, fails: nat -> bool)
    requires NoDuplicates(calls) && AllFiles(calls)
    ensures (forall o | o in calls :: o in RemovedBy(calls, fails)) <==> NoneFails(fails, |calls|)
  {
    if k :| 0 <= k < |calls| && fails(k) {
      assert calls[k] in calls;
    }
  }

  /** The promise of a sync of files with deletion on: the source arrives, excluded objects are overwritten exactly
      where a source has their path, and the paths are the source's and the excluded ones exactly when no deletion
      fails. */
  lemma FileSyncMirrorsSource(S: seq<StoredObject>, dst: seq<StoredObject>, filters: seq<ObjectFilter>, opt: Options,
                              copies: seq<StoredObject>, offered: seq<StoredObject>, removed: seq<StoredObject>,
                              landed: StoredObject -> StoredObject, actions: seq<Action>, answers: nat -> Answer,
                              fails: nat -> bool)
    requires DistinctPaths(S) && DistinctPaths(dst) && AllFiles(S) && AllFiles(Kept(filters, dst))
    requires IsSyncOutcome(S, Kept(filters, dst), opt, copies, offered)
    requires removed == RemovedBy(Chosen(True, answers, offered), fails)
    requires forall s | s in S :: landed(s).relativePath == s.relativePath
    requires CarriesOut(actions, copies, removed, landed)
    ensures var after := ApplyAll(ByPath(dst), actions);
            && SourcesArrived(S, dst, landed, after)
            && ExcludedSettled(S, dst, filters, landed, after)
            && (PathsMirrored(S, dst, filters, after) <==> NoneFails(fails, |offered|))
  {
    var D := Kept(filters, dst);
    var after := ApplyAll(ByPath(dst), actions);
    ChosenUnprompted(answers, offered);
    RunSettles(S, dst, filters, opt, copies, offered, removed, landed, actions);
    SourcesAfter(S, D, dst, filters, opt, removed, landed, after);
    ExcludedAfter(S, D, dst, filters, opt, removed, landed, after);
    PathsAfter(S, D, dst, filters, opt, removed, landed, after);
    AllRemovedIff(offered, fails);
  }

  /** A run with an include filter overwrites an excluded destination of the same path, even a newer one. */
  lemma ExcludedIsOverwritten(opt: Options)
    ensures var included, excluded := StoredObject("", File, 1, 0, 1), StoredObject("", File, 2, 0, 2);
            var filters := [ObjectFilter(false, (o: StoredObject) => o.content == 1)];
            && IsSyncOutcome([included], Kept(filters, [excluded]), opt, [included], [])
            && ApplyAll(ByPath([excluded]), [Put(included)])[""] == included
  {
    var included, excluded := StoredObject("", File, 1, 0, 1), StoredObject("", File, 2, 0, 2);
    var filters := [ObjectFilter(false, (o: StoredObject) => o.content == 1)];
    assert !filters[0].doesPass(excluded);
    assert Kept(filters, [excluded]) == Kept(filters, []) == [];
  }

  lemma SourcesAfter(S: seq<StoredObject>, D: seq<StoredObject>, dst: seq<StoredObject>, filters: seq<ObjectFilter>,
                     opt: Options, removed: seq<StoredObject>, landed: StoredObject -> StoredObject,
                     after: map<string, StoredObject>)
    requires DistinctPaths(S) && DistinctPaths(dst) && D == Kept(filters, dst) && AllFiles(S)
    requires IsSettled(S, D, dst, opt, removed, landed, after)
    requires forall o | o in removed :: IsExtra(S, D, opt, o)
    ensures SourcesArrived(S, dst, landed, after)
  {
    forall s | s in S
      ensures s.relativePath in after && (after[s.relativePath] == landed(s) ||
                (after[s.relativePath] in dst && !IsMoreRecentThan(s, after[s.relativePath])))
    {
      UncopiedIsFresh(S, D, dst, filters, opt, removed, landed, after, s);
    }
  }

  lemma ExcludedAfter(S: seq<StoredObject>, D: seq<StoredObject>, dst: seq<StoredObject>, filters: seq<ObjectFilter>,
                      opt: Options, removed: seq<StoredObject>, landed: StoredObject -> StoredObject,
                      after: map<string, StoredObject>)
    requires DistinctPaths(dst) && D == Kept(filters, dst) && AllFiles(S)
    requires IsSettled(S, D, dst, opt, removed, landed, after)
    requires forall o | o in removed :: IsExtra(S, D, opt, o)
    ensures ExcludedSettled(S, dst, filters, landed, after)
  {
    ByPathFacts(dst);
    forall x | x in dst && !Passes(filters, x)
      ensures x.relativePath in after && (!HasPath(S, x.relativePath) ==> after[x.relativePath] == x)
      ensures forall s | s in S && s.relativePath == x.relativePath :: after[x.relativePath] == landed(s)
    {
      assert x !in D && x !in removed && ByPath(dst)[x.relativePath] == x;
      assert forall d | d in D :: ByPath(dst)[d.relativePath] == d;
      assert forall s | s in S && s.relativePath == x.relativePath :: WantsCopy(S, D, opt, s);
    }
  }

  /** The paths are those of the source, of the excluded destinations and of the extras that were not removed. */
  lemma PathsAfter(S: seq<StoredObject>, D: seq<StoredObject>, dst: seq<StoredObject>, filters: seq<ObjectFilter>,
                   opt: Options, removed: seq<StoredObject>, landed: StoredObject -> StoredObject,
                   after: map<string, StoredObject>)
    requires DistinctPaths(dst) && D == Kept(filters, dst) && AllFiles(D)
    requires IsSettled(S, D, dst, opt, removed, landed, after)
    requires SourcesArrived(S, dst, landed, after) && ExcludedSettled(S, dst, filters, landed, after)
    requires forall o | o in removed :: IsExtra(S, D, opt, o)
    ensures PathsMirrored(S, dst, filters, after) <==> forall o | IsExtra(S, D, opt, o) :: o in removed
  {
    ByPathFacts(dst);
    forall o | IsExtra(S, D, opt, o)
      ensures o.relativePath in after <==> o !in removed
      ensures !HasPath(S, o.relativePath) && forall x | x in dst && x.relativePath == o.relativePath :: x == o
    {
      assert forall s | WantsCopy(S, D, opt, s) :: s.relativePath != o.relativePath;
      assert ByPath(dst)[o.relativePath] == o;
    }
    forall p | p in after && !HasPath(S, p)
      ensures exists x :: x in dst && x.relativePath == p && (!Passes(filters, x) || (IsExtra(S, D, opt, x) && x !in removed))
    {
      assert forall s | WantsCopy(S, D, opt, s) :: s.relativePath != p;
      var x := ByPath(dst)[p];
      assert Passes(filters, x) ==> IsExtra(S, D, opt, x);
    }
  }

  /** An admitted source that was not copied has a filter-passing destination that is not older, and it stays. */
  lemma UncopiedIsFresh(S: seq<StoredObject>, D: seq<StoredObject>, dst: seq<StoredObject>, filters: seq<ObjectFilter>,
                        opt: Options, removed: seq<StoredObject>, landed: StoredObject -> StoredObject,
                        after: map<string, StoredObject>, s: StoredObject)
    requires DistinctPaths(S) && DistinctPaths(dst) && D == Kept(filters, dst)
    requires IsSettled(S, D, dst, opt, removed, landed, after)
    requires forall o | o in removed :: IsExtra(S, D, opt, o)
    requires s in S && IsCompatibleWithFpo(s, opt.fpo)
    ensures s.relativePath in after
    ensures WantsCopy(S, D, opt, s) ==> after[s.relativePath] == landed(s)
    ensures !WantsCopy(S, D, opt, s) ==> after[s.relativePath] in D && !IsMoreRecentThan(s, after[s.relativePath])
  {
    if !WantsCopy(S, D, opt, s) {
      var d :| d in D && d.relativePath == s.relativePath && !IsMoreRecentThan(s, d);
      ByPathFacts(dst);
      ByPathFacts(S);
      assert ByPath(dst)[s.relativePath] == d && d !in removed;
      assert forall t | WantsCopy(S, D, opt, t) :: t.relativePath != s.relativePath;
    }
  }

  // ---------- The second run ----------

  /** With nothing changed on either side, a second non-mirror run wants again exactly the copies that landed older than
      their source or where the filters do not see them, and offers again exactly the extras that were not removed. */
  lemma SecondRun(S: seq<StoredObject>, dst: seq<StoredObject>, filters: seq<ObjectFilter>, opt: Options,
                  removed: seq<StoredObject>, landed: StoredObject -> StoredObject,
                  after: map<string, StoredObject>, dst2: seq<StoredObject>)
    requires DistinctPaths(S) && DistinctPaths(dst) && DistinctPaths(dst2)
    requires IsSettled(S, Kept(filters, dst), dst, opt, removed, landed, after) && ByPath(dst2) == after
    requires forall o | o in removed :: IsExtra(S, Kept(filters, dst), opt, o)
    requires forall s | s in S :: landed(s).relativePath == s.relativePath
    ensures var D, D2 := Kept(filters, dst), Kept(filters, dst2);
            var again := opt.(mirrorMode := false);
            && (forall o :: WantsCopy(S, D2, again, o) <==>
                  WantsCopy(S, D, opt, o) && (IsMoreRecentThan(o, landed(o)) || !Passes(filters, landed(o))))
            && (forall o :: IsExtra(S, D2, again, o) <==> IsExtra(S, D, opt, o) && o !in removed)
  {
    var D, D2 := Kept(filters, dst), Kept(filters, dst2);
    var again := opt.(mirrorMode := false);
    ByPathFacts(dst2);
    ByPathFacts(dst);
    forall o ensures WantsCopy(S, D2, again, o) <==>
                     WantsCopy(S, D, opt, o) && (IsMoreRecentThan(o, landed(o)) || !Passes(filters, landed(o))) {
      if o in S && IsCompatibleWithFpo(o, opt.fpo) {
        UncopiedIsFresh(S, D, dst, filters, opt, removed, landed, after, o);
        var there := after[o.relativePath];
        assert there in dst2 && there.relativePath == o.relativePath;
        assert forall d | d in D2 && d.relativePath == o.relativePath :: d == there;
        assert there in D2 <==> Passes(filters, there);
      }
    }
    forall o ensures IsExtra(S, D2, again, o) <==> IsExtra(S, D, opt, o) && o !in removed {
      if forall s | s in S :: s.relativePath != o.relativePath {
        assert forall s | WantsCopy(S, D, opt, s) :: s.relativePath != o.relativePath;
      }
    }
  }

  lemma EmptyIff(objects: seq<StoredObject>)
    ensures objects == [] <==> forall o :: o !in objects
  {
    if objects != [] {
      assert objects[0] in objects;
    }
  }

  /** Sync converges: after a run over files that deletes without asking, a second non-mirror run deletes nothing
      exactly when no deletion failed, and copies nothing exactly when every copy landed where the filters see it and
      not older than its source. */
  lemma SyncConvergesIff(S: seq<StoredObject>, dst: seq<StoredObject>, filters: seq<ObjectFilter>, opt: Options,
                         copies: seq<StoredObject>, offered: seq<StoredObject>, removed: seq<StoredObject>,
                         landed: StoredObject -> StoredObject, actions: seq<Action>, answers: nat -> Answer,
                         fails: nat -> bool, dst2: seq<StoredObject>, copies2: seq<StoredObject>, offered2: seq<StoredObject>)
    requires DistinctPaths(S) && DistinctPaths(dst) && DistinctPaths(dst2) && AllFiles(Kept(filters, dst))
    requires IsSyncOutcome(S, Kept(filters, dst), opt, copies, offered)
    requires removed == RemovedBy(Chosen(True, answers, offered), fails)
    requires forall s | s in S :: landed(s).relativePath == s.relativePath
    requires CarriesOut(actions, copies, removed, landed) && ByPath(dst2) == ApplyAll(ByPath(dst), actions)
    requires IsSyncOutcome(S, Kept(filters, dst2), opt.(mirrorMode := false), copies2, offered2)
    ensures offered2 == [] <==> NoneFails(fails, |offered|)
    ensures copies2 == [] <==> forall o | o in copies :: !IsMoreRecentThan(o, landed(o)) && Passes(filters, landed(o))
  {
    ChosenUnprompted(answers, offered);
    RunSettles(S, dst, filters, opt, copies, offered, removed, landed, actions);
    SecondRun(S, dst, filters, opt, removed, landed, ByPath(dst2), dst2);
    AllRemovedIff(offered, fails);
    EmptyIff(offered2);
    EmptyIff(copies2);
  }
}
