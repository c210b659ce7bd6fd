/** addTransfer and dispatchFinalPart of cmd/copyEnumeratorHelper.go: transfers are buffered and sent to the transfer
    engine in numbered parts. */
module PartDispatcher {
  import opened Common
  import opened Int64

  datatype CopyTransfer = CopyTransfer(source: string, destination: string, entityType: EntityType, sourceSize: int)

  /** common.Transfers: the buffered list and its running totals, unsigned and wrapping. */
  datatype Transfers = Transfers(list: seq<CopyTransfer>, totalSizeInBytes: nat, fileCount: nat, folderCount: nat)

  /** What the engine received in one accepted request. */
  datatype Part = Part(number: nat, transfers: Transfers, isFinal: bool)

  /** The engine's reply. */
  datatype Response = Response(jobStarted: bool, nothingScheduled: bool)

  datatype Outcome = Ok | PartRefused | NothingScheduled

  function TrimPrefix(s: string, prefix: string): string {
    if prefix <= s then s[|prefix|..] else s
  }

  function Trimmed(t: CopyTransfer, sourceRoot: string, destinationRoot: string): CopyTransfer {
    t.(source := TrimPrefix(t.source, sourceRoot), destination := TrimPrefix(t.destination, destinationRoot))
  }

  /** rest is a name without its root: what follows the root, or the whole name if it does not begin with the root. */
  predicate IsRelative(name: string, root: string, rest: string) {
    if root <= name then name == root + rest else name == rest
  }

  /** A transfer as the engine gets it: both names relative, everything else as it was. */
  predicate IsRelativeTransfer(t: CopyTransfer, sourceRoot: string, destinationRoot: string, sent: CopyTransfer) {
    && IsRelative(t.source, sourceRoot, sent.source) && IsRelative(t.destination, destinationRoot, sent.destination)
    && sent.entityType == t.entityType && sent.sourceSize == t.sourceSize
  }

  lemma TrimmedIsRelative(t: CopyTransfer, sourceRoot: string, destinationRoot: string)
    ensures IsRelativeTransfer(t, sourceRoot, destinationRoot, Trimmed(t, sourceRoot, destinationRoot))
  {
  }

  /** The relative names determine the transfer. */
  lemma RelativeIsTrimmed(t: CopyTransfer, sourceRoot: string, destinationRoot: string, sent: CopyTransfer)
    requires IsRelativeTransfer(t, sourceRoot, destinationRoot, sent)
    ensures sent == Trimmed(t, sourceRoot, destinationRoot)
  {
    assert sourceRoot <= t.source ==> (sourceRoot + sent.source)[|sourceRoot|..] == sent.source;
    assert destinationRoot <= t.destination ==> (destinationRoot + sent.destination)[|destinationRoot|..] == sent.destination;
  }

  // ---------- Totals as folds over the list ----------

  function TotalSize(list: seq<CopyTransfer>): int {
    if list == [] then 0 else TotalSize(list[..|list| - 1]) + list[|list| - 1].sourceSize
  }

  function FileCount(list: seq<CopyTransfer>): nat {
    if list == [] then 0
    else FileCount(list[..|list| - 1]) + (if list[|list| - 1].entityType.File? then 1 else 0)
  }

  /** The counters of a list are its folds, modulo their widths; folders are what is not a file. */
  ghost predicate CountersFit(t: Transfers) {
    && t.totalSizeInBytes == TotalSize(t.list) % TWO_64
    && t.fileCount == FileCount(t.list) % TWO_32
    && t.folderCount == (|t.list| - FileCount(t.list)) % TWO_32
  }

  ghost function FilesIn(list: seq<CopyTransfer>): set<nat> {
    set i: nat | i < |list| && list[i].entityType == File
  }

  /** The file count is the number of files. */
  lemma {:induction false} FileCountIsNumberOfFiles(list: seq<CopyTransfer>)
    ensures FileCount(list) == |FilesIn(list)|
  {
    if list == [] {
      assert FilesIn(list) == {};
    } else {
      var n := |list| - 1;
      FileCountIsNumberOfFiles(list[..n]);
      assert FilesIn(list) == FilesIn(list[..n]) + if list[n].entityType == File then {n} else {};
    }
  }

  /** The total size is the sum of the sizes. */
  lemma TotalSizeIsSum(list: seq<CopyTransfer>, t: CopyTransfer)
    ensures TotalSize([]) == 0 && TotalSize(list + [t]) == TotalSize(list) + t.sourceSize
  {
    assert (list + [t])[..|list|] == list;
  }

  function Without(list: seq<CopyTransfer>, i: nat): seq<CopyTransfer>
    requires i < |list|
  {
    list[..i] + list[i + 1..]
  }

  /** The folds do not depend on the order of the list. */
  lemma {:induction false} FoldsOfPermutation(a: seq<CopyTransfer>, b: seq<CopyTransfer>)
    requires multiset(a) == multiset(b)
    ensures TotalSize(a) == TotalSize(b) && FileCount(a) == FileCount(b)
    decreases |a|
  {
    if a == [] {
      assert |multiset(b)| == 0;
    } else {
      var n := |a| - 1;
      var i := MatchingTransfer(a, b);
      FoldsOfPermutation(a[..n], Without(b, i));
      FoldsWithout(b, i);
    }
  }

  lemma MultisetWithout(b: seq<CopyTransfer>, i: nat)
    requires i < |b|
    ensures multiset(Without(b, i)) == multiset(b) - multiset{b[i]}
  {
    assert b == b[..i] + [b[i]] + b[i + 1..];
  }

  /** A permutation has the last element somewhere, and is a permutation of the others without it. */
  lemma MatchingTransfer(a: seq<CopyTransfer>, b: seq<CopyTransfer>) returns (i: nat)
    requires a != [] && multiset(a) == multiset(b)
    ensures i < |b| && b[i] == a[|a| - 1] && multiset(a[..|a| - 1]) == multiset(Without(b, i))
  {
    var n := |a| - 1;
    assert a[n] in multiset(b);
    i :| 0 <= i < |b| && b[i] == a[n];
    MultisetWithout(b, i);
    MultisetWithout(a, n);
    assert Without(a, n) == a[..n];
  }

  lemma {:induction false} FoldsWithout(b: seq<CopyTransfer>, i: nat)
    requires i < |b|
    ensures TotalSize(b) == TotalSize(Without(b, i)) + b[i].sourceSize
    ensures FileCount(b) == FileCount(Without(b, i)) + (if b[i].entityType.File? then 1 else 0)
    decreases |b|
  {
    var n := |b| - 1;
    var c := Without(b, i);
    if i == n {
      assert c == b[..n];
    } else {
      assert c[..n - 1] == Without(b[..n], i) && c[n - 1] == b[n];
      FoldsWithout(b[..n], i);
    }
  }

  /** Unsigned addition of converted operands is conversion of the sum. */
  lemma WrappedSum64(a: int, b: int)
    ensures (a % TWO_64 + b % TWO_64) % TWO_64 == (a + b) % TWO_64
  {
  }

  lemma WrappedIncrement32(a: int, b: int)
    requires b == 0 || b == 1
    ensures (a % TWO_32 + b) % TWO_32 == (a + b) % TWO_32
  {
  }

  /** One transfer more, counted. */
  function Grown(transfers: Transfers, t: CopyTransfer): Transfers {
    Transfers(transfers.list + [t],
              (transfers.totalSizeInBytes + t.sourceSize % TWO_64) % TWO_64,
              (transfers.fileCount + (if t.entityType.File? then 1 else 0)) % TWO_32,
              (transfers.folderCount + (if t.entityType.File? then 0 else 1)) % TWO_32)
  }

  lemma GrownFits(transfers: Transfers, t: CopyTransfer)
    requires CountersFit(transfers)
    ensures CountersFit(Grown(transfers, t))
  {
    var list := transfers.list + [t];
    assert list[..|list| - 1] == transfers.list;
    WrappedSum64(TotalSize(transfers.list), t.sourceSize);
    WrappedIncrement32(FileCount(transfers.list), if t.entityType.File? then 1 else 0);
    WrappedIncrement32(|transfers.list| - FileCount(transfers.list), if t.entityType.File? then 0 else 1);
  }

  const EMPTY := Transfers([], 0, 0, 0)

  lemma EmptyFits()
    ensures CountersFit(EMPTY)
  {
  }

  // ---------- Whole runs ----------

  /** The transfers of the parts, in the order sent. */
  function Sent(parts: seq<Part>): seq<CopyTransfer> {
    if parts == [] then [] else Sent(parts[..|parts| - 1]) + parts[|parts| - 1].transfers.list
  }

  /** Parts are numbered 0, 1, 2, ..., all but a final one are exactly full, and every part's counters fit. */
  ghost predicate WellNumbered(parts: seq<Part>, threshold: nat) {
    forall i | 0 <= i < |parts| ::
      && parts[i].number == i
      && CountersFit(parts[i].transfers)
      && (if parts[i].isFinal then i == |parts| - 1 else |parts[i].transfers.list| == threshold)
  }

  ghost predicate NoneFinal(parts: seq<Part>) {
    forall i | 0 <= i < |parts| :: !parts[i].isFinal
  }

  lemma OneMorePart(parts: seq<Part>, part: Part, threshold: nat)
    requires WellNumbered(parts, threshold) && NoneFinal(parts)
    requires part.number == |parts| && CountersFit(part.transfers)
    requires !part.isFinal ==> |part.transfers.list| == threshold
    ensures WellNumbered(parts + [part], threshold) && (!part.isFinal ==> NoneFinal(parts + [part]))
    ensures Sent(parts + [part]) == Sent(parts) + part.transfers.list
  {
    assert (parts + [part])[..|parts|] == parts;
  }

  /** Everything sent or still buffered. */
  ghost function HeldBy(parts: seq<Part>, list: seq<CopyTransfer>): multiset<CopyTransfer> {
    multiset(Sent(parts)) + multiset(list)
  }

  /** Sending moves the buffer, in any order, to what is sent. */
  lemma SentIsHeld(parts: seq<Part>, part: Part, list: seq<CopyTransfer>)
    requires multiset(part.transfers.list) == multiset(list)
    ensures HeldBy(parts + [part], []) == HeldBy(parts, list) == HeldBy(parts, part.transfers.list)
  {
    assert (parts + [part])[..|parts|] == parts;
  }

  lemma HeldBySent(parts: seq<Part>)
    ensures HeldBy(parts, []) == multiset(Sent(parts))
    ensures HeldBy([], []) == multiset{}
  {
  }

  lemma AppendIsHeld(parts: seq<Part>, list: seq<CopyTransfer>, t: CopyTransfer)
    ensures HeldBy(parts, list + [t]) == HeldBy(parts, list) + multiset{t}
  {
  }

  /** The job part order being filled, the parts the engine accepted, and the progress wait. */
  class Dispatcher {
    const threshold: nat
    const sourceRoot: string
    const destinationRoot: string
    // The engine's reply to the n-th request.
    const engine: nat -> Response
    const dryrunMode: bool

    var transfers: Transfers
    var partNum: nat
    var isFinalPart: bool
    var requests: nat
    var accepted: seq<Part>
    var waits: nat

    /** The parts sent so far, none of them final, and the progress wait that started with the first. */
    ghost predicate Numbered()
      reads this
    {
      && WellNumbered(accepted, threshold) && NoneFinal(accepted)
      && partNum == |accepted| && waits == (if accepted == [] then 0 else 1)
    }

    ghost predicate Valid()
      reads this
    {
      && |transfers.list| <= threshold
      && CountersFit(transfers)
      && WellNumbered(accepted, threshold)
      && (!isFinalPart ==> Numbered() && (accepted != [] ==> transfers.list != []))
    }

    constructor (threshold: nat, sourceRoot: string, destinationRoot: string, engine: nat -> Response, dryrunMode: bool)
      requires threshold > 0
      ensures Valid() && !isFinalPart && transfers.list == [] && accepted == [] && requests == 0
      ensures this.threshold == threshold && this.sourceRoot == sourceRoot && this.destinationRoot == destinationRoot
      ensures this.engine == engine && this.dryrunMode == dryrunMode
    {
      this.threshold, this.sourceRoot, this.destinationRoot := threshold, sourceRoot, destinationRoot;
      this.engine, this.dryrunMode := engine, dryrunMode;
      transfers, partNum, isFinalPart, requests, accepted, waits := EMPTY, 0, false, 0, [], 0;
    }

    /** rand.Shuffle: swaps from the top, each with an arbitrary position at or below it. */
    method ShuffleTransfers()
      modifies this`transfers
      ensures multiset(transfers.list) == multiset(old(transfers.list))
      ensures transfers == old(transfers).(list := transfers.list)
    {
      var i := |transfers.list| - 1;
      while i > 0
        invariant i < |transfers.list|
        invariant multiset(transfers.list) == multiset(old(transfers.list))
        invariant transfers == old(transfers).(list := transfers.list)
      {
        var j :| 0 <= j <= i;
        var list := transfers.list;
        transfers := transfers.(list := list[i := list[j]][j := list[i]]);
        i := i - 1;
      }
    }

    /** Sends the current order to the engine, which keeps it if the job is started. */
    method Rpc() returns (resp: Response)
      modifies this`requests, this`accepted
      ensures resp == engine(old(requests)) && requests == old(requests) + 1
      ensures accepted == old(accepted) + (if resp.jobStarted then [Part(partNum, transfers, isFinalPart)] else [])
    {
      resp := engine(requests);
      requests := requests + 1;
      if resp.jobStarted {
        accepted := accepted + [Part(partNum, transfers, isFinalPart)];
      }
    }

    /** Everything accepted or still buffered. */
    ghost function Held(): multiset<CopyTransfer>
      reads this
    {
      HeldBy(accepted, transfers.list)
    }

    /** The new transfer is held, unless a full part had to go first and was refused: then nothing but the order of
        the buffer changes. */
    method AddTransfer(transfer: CopyTransfer) returns (outcome: Outcome)
      requires Valid() && !isFinalPart && threshold > 0
      modifies this
      ensures Valid() && !isFinalPart
      ensures outcome == if |old(transfers.list)| == threshold && !engine(old(requests)).jobStarted then PartRefused else Ok
      ensures outcome.Ok? ==> transfers.list != []
                              && Held() == old(Held()) + multiset{Trimmed(transfer, sourceRoot, destinationRoot)}
                              && IsRelativeTransfer(transfer, sourceRoot, destinationRoot,
                                                    Trimmed(transfer, sourceRoot, destinationRoot))
      ensures outcome.PartRefused? ==> Held() == old(Held()) && accepted == old(accepted)
      ensures requests == old(requests) + (if |old(transfers.list)| == threshold then 1 else 0)
    {
      var t := Trimmed(transfer, sourceRoot, destinationRoot);
      TrimmedIsRelative(transfer, sourceRoot, destinationRoot);
      if |transfers.list| == threshold {
        outcome := SendFullPart();
        if outcome.PartRefused? {
          return;
        }
      }
      Append(t);
      outcome := Ok;
    }

    /** Shuffles the buffer and sends it as the next part, marked final or not. */
    method Send(final: bool) returns (jobStarted: bool, nothingScheduled: bool)
      requires Valid() && !isFinalPart && (!final ==> |transfers.list| == threshold)
      modifies this`transfers, this`isFinalPart, this`requests, this`accepted
      ensures Response(jobStarted, nothingScheduled) == engine(old(requests)) && requests == old(requests) + 1
      ensures multiset(transfers.list) == multiset(old(transfers.list)) && |transfers.list| == |old(transfers.list)|
      ensures CountersFit(transfers) && WellNumbered(accepted, threshold) && isFinalPart == final
      ensures if jobStarted then
                accepted == old(accepted) + [Part(partNum, transfers, final)] && (!final ==> NoneFinal(accepted))
                && HeldBy(accepted, []) == old(Held())
              else accepted == old(accepted) && Held() == old(Held())
    {
      ShuffleTransfers();
      FoldsOfPermutation(transfers.list, old(transfers.list));
      assert |multiset(transfers.list)| == |multiset(old(transfers.list))|;
      isFinalPart := final;
      OneMorePart(accepted, Part(partNum, transfers, isFinalPart), threshold);
      SentIsHeld(accepted, Part(partNum, transfers, isFinalPart), old(transfers.list));
      var resp := Rpc();
      jobStarted, nothingScheduled := resp.jobStarted, resp.nothingScheduled;
      assert !jobStarted ==> accepted == old(accepted);
    }

    /** The branch of addTransfer that dispatches a full part and starts a new one. */
    method SendFullPart() returns (outcome: Outcome)
      requires Valid() && !isFinalPart && threshold > 0 && |transfers.list| == threshold
      modifies this
      ensures !isFinalPart && requests == old(requests) + 1 && Held() == old(Held())
      ensures outcome == if engine(old(requests)).jobStarted then Ok else PartRefused
      ensures outcome.PartRefused? ==> Valid() && accepted == old(accepted)
      ensures outcome.Ok? ==> transfers == EMPTY && CountersFit(transfers) && Numbered() && waits == 1
    {
      EmptyFits();
      var jobStarted, _ := Send(false);
      if !jobStarted {
        return PartRefused;
      }
      if partNum == 0 {
        waits := waits + 1;
      }
      transfers := EMPTY;
      partNum := partNum + 1;
      outcome := Ok;
    }

    method Append(t: CopyTransfer)
      requires CountersFit(transfers) && |transfers.list| < threshold && Numbered() && !isFinalPart
      modifies this`transfers
      ensures Valid() && transfers.list != [] && Held() == old(Held()) + multiset{t}
    {
      GrownFits(transfers, t);
      AppendIsHeld(accepted, transfers.list, t);
      transfers := Grown(transfers, t);
    }

    /** Sends what is left as the final part; the wait for progress starts here if no part went before. */
    method DispatchFinalPart() returns (outcome: Outcome)
      requires Valid() && !isFinalPart
      modifies this
      ensures Valid() && isFinalPart
      ensures multiset(transfers.list) == multiset(old(transfers.list))
      ensures var resp := engine(old(requests));
              if resp.jobStarted then
                && outcome == Ok && |accepted| == |old(accepted)| + 1 && accepted[|accepted| - 1].isFinal
                && multiset(Sent(accepted)) == old(Held()) && waits == 1
                && (old(Held()) != multiset{} ==> accepted[|accepted| - 1].transfers.list != [])
              else
                && accepted == old(accepted)
                && outcome == if dryrunMode then Ok else if resp.nothingScheduled then NothingScheduled else PartRefused
    {
      HeldBySent(accepted);
      var jobStarted, nothingScheduled := Send(true);
      HeldBySent(accepted);
      if !jobStarted {
        return if dryrunMode then Ok else if nothingScheduled then NothingScheduled else PartRefused;
      }
      if partNum == 0 {
        waits := waits + 1;
      }
      outcome := Ok;
    }
  }

  function TrimAll(added: seq<CopyTransfer>, sourceRoot: string, destinationRoot: string): (r: seq<CopyTransfer>)
    ensures |r| == |added|
  {
    seq(|added|, i requires 0 <= i < |added| => Trimmed(added[i], sourceRoot, destinationRoot))
  }

  lemma OneMoreTrimmed(added: seq<CopyTransfer>, sourceRoot: string, destinationRoot: string, i: nat)
    requires i < |added|
    ensures var trimmed := TrimAll(added, sourceRoot, destinationRoot);
            multiset(trimmed[..i + 1]) == multiset(trimmed[..i]) + multiset{Trimmed(added[i], sourceRoot, destinationRoot)}
  {
    var trimmed := TrimAll(added, sourceRoot, destinationRoot);
    assert trimmed[..i + 1] == trimmed[..i] + [trimmed[i]];
  }

  /** Transfer by transfer, sent is what was added with both names relative. */
  ghost predicate AreRelative(added: seq<CopyTransfer>, sourceRoot: string, destinationRoot: string, sent: seq<CopyTransfer>) {
    |sent| == |added| && forall i | 0 <= i < |added| :: IsRelativeTransfer(added[i], sourceRoot, destinationRoot, sent[i])
  }

  /** What a run sends is, in some order, what was added with both names relative, and nothing else is. */
  lemma SentIsRelative(added: seq<CopyTransfer>, sourceRoot: string, destinationRoot: string, sent: seq<CopyTransfer>)
    ensures AreRelative(added, sourceRoot, destinationRoot, sent) <==> sent == TrimAll(added, sourceRoot, destinationRoot)
  {
    var trimmed := TrimAll(added, sourceRoot, destinationRoot);
    forall i | 0 <= i < |added| ensures IsRelativeTransfer(added[i], sourceRoot, destinationRoot, trimmed[i]) {
      TrimmedIsRelative(added[i], sourceRoot, destinationRoot);
    }
    if AreRelative(added, sourceRoot, destinationRoot, sent) {
      forall i | 0 <= i < |added| ensures sent[i] == trimmed[i] {
        RelativeIsTrimmed(added[i], sourceRoot, destinationRoot, sent[i]);
      }
    }
  }

  /** A whole run with an engine that accepts every part: nothing is lost, repeated or invented; parts are numbered
      from 0, all but the last are full, the last is not empty if anything was added; progress is awaited once. */
  method Run(threshold: nat, sourceRoot: string, destinationRoot: string, engine: nat -> Response, added: seq<CopyTransfer>)
    returns (parts: seq<Part>, waits: nat)
    requires threshold > 0 && forall n: nat :: engine(n).jobStarted
    ensures exists sent :: AreRelative(added, sourceRoot, destinationRoot, sent) && multiset(Sent(parts)) == multiset(sent)
    ensures WellNumbered(parts, threshold) && parts != [] && parts[|parts| - 1].isFinal
    ensures added != [] ==> parts[|parts| - 1].transfers.list != []
    ensures waits == 1
  {
    var d := new Dispatcher(threshold, sourceRoot, destinationRoot, engine, false);
    ghost var trimmed := TrimAll(added, sourceRoot, destinationRoot);
    for i := 0 to |added|
      invariant d.Valid() && !d.isFinalPart && fresh(d)
      invariant d.Held() == multiset(trimmed[..i])
      invariant i > 0 ==> d.transfers.list != []
    {
      OneMoreTrimmed(added, sourceRoot, destinationRoot, i);
      var _ := d.AddTransfer(added[i]);
    }
    assert trimmed[..|added|] == trimmed;
    var _ := d.DispatchFinalPart();
    SentIsRelative(added, sourceRoot, destinationRoot, trimmed);
    return d.accepted, d.waits;
  }
}
