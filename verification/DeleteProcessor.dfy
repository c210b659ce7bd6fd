/** The interactive deletion of extra destination objects: cmd/syncProcessor.go. */
module DeleteProcessor {
  import opened SyncObjects

  datatype DeleteDestination = False | True | Prompt

  /** What the user answers; Other is anything unrecognised. */
  datatype Answer = Yes | No | YesForAll | NoForAll | Other {
    predicate IsForAll() {
      YesForAll? || NoForAll?
    }
  }

  /** The first for-all answer among the first n, or n if there is none. */
  function FirstForAll(answers: nat -> Answer, n: nat): (f: nat)
    ensures f <= n && (f < n ==> answers(f).IsForAll())
    ensures forall i | 0 <= i < f :: !answers(i).IsForAll()
  {
    if n == 0 then 0
    else
      var f := FirstForAll(answers, n - 1);
      if f < n - 1 || answers(f).IsForAll() then f else n
  }

  /** Whether the k-th object offered for deletion is to be deleted: under Prompt it is answered for itself before the
      first for-all answer, and that answer settles it from then on. */
  predicate Approved(mode: DeleteDestination, answers: nat -> Answer, k: nat) {
    match mode
    case True => true
    case False => false
    case Prompt =>
      var f := FirstForAll(answers, k + 1);
      if f <= k then answers(f).YesForAll? else answers(k).Yes?
  }

  /** The approved objects among those offered. */
  function Chosen(mode: DeleteDestination, answers: nat -> Answer, offered: seq<StoredObject>): seq<StoredObject> {
    if offered == [] then []
    else
      var n := |offered| - 1;
      Chosen(mode, answers, offered[..n]) + (if Approved(mode, answers, n) then [offered[n]] else [])
  }

  lemma ChosenNext(mode: DeleteDestination, answers: nat -> Answer, offered: seq<StoredObject>, o: StoredObject)
    ensures Chosen(mode, answers, offered + [o]) ==
            Chosen(mode, answers, offered) + (if Approved(mode, answers, |offered|) then [o] else [])
  {
    assert (offered + [o])[..|offered|] == offered;
  }

  /** How many questions the first n offers take. */
  function Prompts(mode: DeleteDestination, answers: nat -> Answer, n: nat): nat {
    if !mode.Prompt? then 0
    else
      var f := FirstForAll(answers, n);
      if f < n then f + 1 else n
  }

  /** What one call of a deleter does: folders are accepted and left alone, and the deletion of a file may fail. */
  predicate Removes(o: StoredObject, fails: bool) {
    o.entityType.File? && !fails
  }

  /** The objects that a run of deleter calls really removes; fails says which calls fail. */
  function RemovedBy(calls: seq<StoredObject>, fails: nat -> bool): (r: seq<StoredObject>)
    ensures forall o :: o in r <==> exists k :: 0 <= k < |calls| && calls[k] == o && Removes(o, fails(k))
    ensures |r| <= |calls|
  {
    if calls == [] then []
    else
      var n := |calls| - 1;
      RemovedBy(calls[..n], fails) + (if Removes(calls[n], fails(n)) then [calls[n]] else [])
  }

  class InteractiveDeleteProcessor {
    ghost const mode: DeleteDestination
    // The user's answer to the n-th question.
    const answers: nat -> Answer
    // Whether the n-th call of the deleter fails on a file.
    const deleteFails: nat -> bool
    const dryrunMode: bool
    var shouldPromptUser: bool
    var shouldDelete: bool
    var prompts: nat
    var deletionCount: nat
    // The calls of the plugged-in deleter, and what it removed.
    var deleterCalls: seq<StoredObject>
    var removed: seq<StoredObject>
    // Everything offered so far.
    var offered: seq<StoredObject>

    /** The flags remember what the answers so far say about the next object. */
    ghost predicate FlagsFit(n: nat)
      reads this`prompts, this`shouldPromptUser, this`shouldDelete
    {
      && prompts == Prompts(mode, answers, n)
      && shouldPromptUser == (mode.Prompt? && FirstForAll(answers, n) == n)
      && (!shouldPromptUser ==>
            shouldDelete == if mode.Prompt? then answers(FirstForAll(answers, n)).YesForAll? else mode.True?)
    }

    ghost predicate LogsFit()
      reads this`deleterCalls, this`removed, this`deletionCount, this`offered
    {
      && deleterCalls == (if dryrunMode then [] else Chosen(mode, answers, offered))
      && removed == RemovedBy(deleterCalls, deleteFails)
      && deletionCount == |deleterCalls|
    }

    ghost predicate Valid()
      reads this
    {
      FlagsFit(|offered|) && LogsFit()
    }

    constructor (mode: DeleteDestination, answers: nat -> Answer, deleteFails: nat -> bool, dryrunMode: bool)
      ensures Valid() && offered == [] && this.mode == mode && this.answers == answers
      ensures this.deleteFails == deleteFails && this.dryrunMode == dryrunMode
    {
      this.mode, this.answers, this.deleteFails, this.dryrunMode := mode, answers, deleteFails, dryrunMode;
      shouldPromptUser, shouldDelete := mode == Prompt, mode == True;
      prompts, deletionCount, deleterCalls, removed, offered := 0, 0, [], [], [];
    }

    /** failed is the deleter's error: it is logged and returned, and the deletion is counted all the same. */
    method RemoveImmediately(o: StoredObject) returns (failed: bool)
      requires Valid()
      modifies this
      ensures Valid() && offered == old(offered) + [o]
      ensures failed <==> deletionCount > old(deletionCount) && o.entityType.File? && removed == old(removed)
    {
      ghost var n := |offered|;
      NoteDecision(n);
      assert FlagsFit(n + 1);
      failed := Carry(o);
      assert |offered| == n + 1;
      assert FlagsFit(n + 1);
    }

    /** Acts on the noted decision. */
    method Carry(o: StoredObject) returns (failed: bool)
      requires LogsFit() && shouldDelete == Approved(mode, answers, |offered|)
      modifies this`deleterCalls, this`removed, this`deletionCount, this`offered
      ensures LogsFit() && offered == old(offered) + [o]
      ensures failed <==> deletionCount > old(deletionCount) && o.entityType.File? && removed == old(removed)
    {
      ChosenNext(mode, answers, offered, o);
      offered := offered + [o];
      if !shouldDelete {
        return false;
      }
      if dryrunMode {
        return false;
      }
      failed := Delete(o);
      deletionCount := deletionCount + 1;
    }

    /** Asks about the n-th object if a question is still due. */
    method NoteDecision(ghost n: nat)
      requires FlagsFit(n)
      modifies this`shouldDelete, this`shouldPromptUser, this`prompts
      ensures FlagsFit(n + 1) && shouldDelete == Approved(mode, answers, n)
    {
      if shouldPromptUser {
        shouldDelete, shouldPromptUser := PromptForConfirmation();
      }
    }

    method PromptForConfirmation() returns (delete: bool, keepPrompting: bool)
      modifies this`prompts
      ensures prompts == old(prompts) + 1
      ensures delete == (answers(old(prompts)).Yes? || answers(old(prompts)).YesForAll?)
      ensures keepPrompting == !answers(old(prompts)).IsForAll()
    {
      var answer := answers(prompts);
      prompts := prompts + 1;
      match answer
      case Yes => return true, true;
      case YesForAll => return true, false;
      case No => return false, true;
      case NoForAll => return false, false;
      case Other => return false, true;
    }

    /** The local and remote deleters. */
    method Delete(o: StoredObject) returns (failed: bool)
      requires removed == RemovedBy(deleterCalls, deleteFails)
      modifies this`deleterCalls, this`removed
      ensures deleterCalls == old(deleterCalls) + [o] && removed == RemovedBy(deleterCalls, deleteFails)
      ensures removed == old(removed) + (if o.entityType.File? && !failed then [o] else [])
      ensures failed <==> o.entityType.File? && deleteFails(|old(deleterCalls)|)
    {
      ghost var n := |deleterCalls|;
      assert (deleterCalls + [o])[..n] == deleterCalls;
      failed := false;
      if o.entityType.File? {
        failed := deleteFails(|deleterCalls|);
        if !failed {
          removed := removed + [o];
        }
      }
      deleterCalls := deleterCalls + [o];
    }
  }

  /** The final answers of a prompted run, in closed form: before the first for-all answer exactly the objects
      answered Yes are deleted, from it on all or none; and there is no question after it. */
  lemma PromptedRun(answers: nat -> Answer, n: nat, k: nat)
    requires k < n
    ensures var f := FirstForAll(answers, n);
            && Prompts(Prompt, answers, n) == (if f < n then f + 1 else n)
            && (Approved(Prompt, answers, k) <==> if k < f then answers(k).Yes? else answers(f).YesForAll?)
  {
  }

  /** The first YesForAll or NoForAll decides about its own object and all later ones; a Yes or No before it about its own
      only, and an unrecognised answer keeps the object. */
  lemma AnswersDecide(answers: nat -> Answer, i: nat, k: nat)
    requires forall j | 0 <= j < i :: answers(j) == Yes || answers(j) == No || answers(j) == Other
    ensures answers(i) == YesForAll && k >= i ==> Approved(Prompt, answers, k) && Prompts(Prompt, answers, k + 1) == i + 1
    ensures answers(i) == NoForAll && k >= i ==> !Approved(Prompt, answers, k) && Prompts(Prompt, answers, k + 1) == i + 1
    ensures k < i ==> (Approved(Prompt, answers, k) <==> answers(k) == Yes) && Prompts(Prompt, answers, k + 1) == k + 1
  {
    var f := FirstForAll(answers, k + 1);
    if f < i {
      assert answers(f) == Yes || answers(f) == No || answers(f) == Other;
    }
    if k >= i && answers(i).IsForAll() {
      assert f == i;
    }
  }

  /** An approved object is deleted once for every approved offer of it. */
  lemma {:induction false} ChosenIffApproved(mode: DeleteDestination, answers: nat -> Answer, offered: seq<StoredObject>,
                                             o: StoredObject)
    ensures o in Chosen(mode, answers, offered) <==>
            exists k :: 0 <= k < |offered| && offered[k] == o && Approved(mode, answers, k)
  {
    if offered != [] {
      var n := |offered| - 1;
      ChosenIffApproved(mode, answers, offered[..n], o);
      assert forall k | 0 <= k < n :: offered[..n][k] == offered[k];
      if Approved(mode, answers, n) && offered[n] == o {
        assert exists k :: 0 <= k < |offered| && offered[k] == o && Approved(mode, answers, k);
      }
    }
  }

  lemma {:induction false} ChosenUnprompted(answers: nat -> Answer, offered: seq<StoredObject>)
    ensures Chosen(True, answers, offered) == offered && Chosen(False, answers, offered) == []
  {
    if offered != [] {
      var n := |offered| - 1;
      ChosenUnprompted(answers, offered[..n]);
      assert offered == offered[..n] + [offered[n]];
    }
  }

  /** The reported count counts deleter calls: it is the number of removed objects exactly when no call was made on a
      folder and none failed. */
  lemma {:induction false} CountIsRemovalsIff(calls: seq<StoredObject>, fails: nat -> bool)
    ensures |calls| == |RemovedBy(calls, fails)|
            <==> forall k | 0 <= k < |calls| :: calls[k].entityType.File? && !fails(k)
  {
    if calls != [] {
      var n := |calls| - 1;
      CountIsRemovalsIff(calls[..n], fails);
    }
  }

  /** One extra file that cannot be deleted, or one extra folder, is reported as one deletion. */
  lemma CountCanBeWrong(o: StoredObject, answers: nat -> Answer)
    ensures var calls := Chosen(True, answers, [o]);
            |calls| == 1 && RemovedBy(calls, _ => true) == [] && (o.entityType.Folder? ==> RemovedBy(calls, _ => false) == [])
  {
    ChosenUnprompted(answers, [o]);
    CountIsRemovalsIff([o], _ => true);
    CountIsRemovalsIff([o], _ => false);
  }
}
