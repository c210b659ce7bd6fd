/** The two bucket-name resolvers: a table of resolved names, a set of names handed out, and a suffix search. */
module NameResolvers {
  import opened Common
  import opened Decimal
  import opened NamingRules

  const FAILED := "<resolving_failed>"
  const LAST_S3_SUFFIX := 1000

  /** The two maps of a resolver. An entry "" is a listed bucket that is not resolved yet. */
  datatype Table = Table(resolving: map<string, string>, taken: set<string>) {
    /** The names hasCollision reports. */
    function Used(): set<string> {
      resolving.Keys + taken
    }

    predicate IsResolved(name: string) {
      name in resolving && resolving[name] != ""
    }

    /** What ResolveName reports for a resolved name: None is its error. */
    function Answer(name: string): Option<string>
      requires name in resolving
    {
      if resolving[name] == FAILED then None else Some(resolving[name])
    }
  }

  // ---------- The suffix search ----------

  /** The least free suffix from k on, or limit + 1 if all up to limit are used. */
  function LeastFree(base: string, used: set<string>, k: nat, limit: nat): (r: nat)
    requires k <= limit + 1
    ensures k <= r <= limit + 1
    ensures forall i | k <= i < r :: Suffixed(base, i) in used
    ensures r <= limit ==> Suffixed(base, r) !in used
    decreases limit + 1 - k
  {
    if k > limit || Suffixed(base, k) !in used then k else LeastFree(base, used, k + 1, limit)
  }

  /** The last suffix addSuffix can reach. GCP's loop has no bound of its own: FreeSuffixExists shows that
      pigeonhole gives it this one. */
  function SuffixLimit(p: Provider, used: set<string>): nat {
    if p.S3? then LAST_S3_SUFFIX else |used| + 2
  }

  function AddSuffix(p: Provider, base: string, used: set<string>): string {
    var k := LeastFree(base, used, 2, SuffixLimit(p, used));
    if k > SuffixLimit(p, used) then FAILED else Suffixed(base, k)
  }

  /** The suffixed names below c. */
  ghost function Candidates(base: string, c: nat): set<string> {
    set i | 2 <= i < c :: Suffixed(base, i)
  }

  lemma {:induction false} CandidateCount(base: string, c: nat)
    requires c >= 2
    ensures |Candidates(base, c)| == c - 2
  {
    if c > 2 {
      CandidateCount(base, c - 1);
      assert Candidates(base, c) == Candidates(base, c - 1) + {Suffixed(base, c - 1)};
      forall i | 2 <= i < c - 1 ensures Suffixed(base, i) != Suffixed(base, c - 1) {
        if Suffixed(base, i) == Suffixed(base, c - 1) {
          SuffixedInjective(base, i, c - 1);
        }
      }
    } else {
      assert Candidates(base, c) == {};
    }
  }

  lemma {:induction false} SubsetCardinality<T>(a: set<T>, b: set<T>)
    requires a <= b
    ensures |a| <= |b|
  {
    if a != {} {
      var x :| x in a;
      SubsetCardinality(a - {x}, b - {x});
    }
  }

  /** Pigeonhole: a full stretch of suffixes needs as many used names. */
  lemma UsedStretchIsShort(base: string, used: set<string>, c: nat)
    requires c >= 2 && forall i | 2 <= i < c :: Suffixed(base, i) in used
    ensures c - 2 <= |used|
  {
    CandidateCount(base, c);
    SubsetCardinality(Candidates(base, c), used);
  }

  /** The GCP loop always ends, at a free suffix; the S3 loop does while fewer than 999 names are used. */
  lemma FreeSuffixExists(p: Provider, base: string, used: set<string>)
    requires p.S3? ==> |used| < 999
    ensures var k := LeastFree(base, used, 2, SuffixLimit(p, used));
            k <= SuffixLimit(p, used) && Suffixed(base, k) !in used && AddSuffix(p, base, used) == Suffixed(base, k)
  {
    UsedStretchIsShort(base, used, LeastFree(base, used, 2, SuffixLimit(p, used)));
  }

  /** The S3 search gives up exactly when all 999 candidates are used. */
  lemma S3SuffixFailsIff(base: string, used: set<string>)
    ensures AddSuffix(S3, base, used) == FAILED <==> forall i | 2 <= i <= 1000 :: Suffixed(base, i) in used
  {
    var k := LeastFree(base, used, 2, LAST_S3_SUFFIX);
    assert FAILED[|FAILED| - 1] == '>';
    assert Suffixed(base, k)[|Suffixed(base, k)| - 1] == Format(k)[|Format(k)| - 1];
  }

  // ---------- One resolution ----------

  /** The entry a name gets when the names in used, itself among them, are to be avoided. */
  function Entry(p: Provider, name: string, used: set<string>): string {
    if !NeedsWork(p, name) then name
    else
      var base := Sanitised(p, name);
      var r := if base in used then AddSuffix(p, base, used) else base;
      if |r| > MAX_LENGTH then FAILED else r
  }

  /** The table after ResolveName(name). */
  function Resolve(p: Provider, t: Table, name: string): Table {
    if t.IsResolved(name) then t
    else
      var entry := Entry(p, name, t.Used() + {name});
      Table(t.resolving[name := entry], t.taken + (if NeedsWork(p, name) then {entry} else {}))
  }

  function ResolveAll(p: Provider, t: Table, names: seq<string>): Table
    decreases |names|
  {
    if names == [] then t else ResolveAll(p, Resolve(p, t, names[0]), names[1..])
  }

  /** The table the constructor starts from. */
  function Pending(names: seq<string>): Table {
    Table(map n | n in names :: "", {})
  }

  function Constructed(p: Provider, names: seq<string>): Table {
    ResolveAll(p, Pending(names), names)
  }

  /** What the source demands of a bucket name: the empty name recurses for ever, the others panic. */
  predicate Acceptable(p: Provider, name: string) {
    name != "" && !Panics(p, name)
  }

  predicate AllAcceptable(p: Provider, names: seq<string>) {
    forall n | n in names :: Acceptable(p, n)
  }

  /** An entry is fresh or failed when work was needed, and never empty. */
  lemma EntryFacts(p: Provider, name: string, used: set<string>)
    requires Acceptable(p, name)
    ensures Entry(p, name, used) != ""
    ensures NeedsWork(p, name) ==> Entry(p, name, used) == FAILED || Entry(p, name, used) !in used
  {
    if NeedsWork(p, name) {
      SanitisedNonEmpty(p, name);
    }
  }

  // ---------- Invariants ----------

  /** Two buckets never share a container. */
  ghost predicate Distinct(t: Table) {
    forall a, b | a in t.resolving && b in t.resolving && a != b && t.IsResolved(a) && t.resolving[a] != FAILED ::
      t.resolving[a] != t.resolving[b]
  }

  /** Clean names map to themselves, the others to taken names. */
  ghost predicate EntriesFit(p: Provider, t: Table) {
    forall n | t.IsResolved(n) :: if NeedsWork(p, n) then t.resolving[n] in t.taken else t.resolving[n] == n
  }

  ghost predicate Owns(p: Provider, t: Table, n: string, v: string) {
    n in t.resolving && NeedsWork(p, n) && t.resolving[n] == v
  }

  /** Every taken name has an owner, and only one. */
  ghost predicate TakenOwned(p: Provider, t: Table) {
    && (forall v | v in t.taken && v != FAILED :: exists n :: Owns(p, t, n, v))
    && (forall v, a, b | v in t.taken && v != FAILED && Owns(p, t, a, v) && Owns(p, t, b, v) :: a == b)
  }

  ghost predicate Consistent(p: Provider, t: Table) {
    "" !in t.taken && EntriesFit(p, t) && TakenOwned(p, t)
  }

  /** No clean name the resolver knows has been handed out to another bucket. */
  ghost predicate Separate(p: Provider, t: Table) {
    forall n | n in t.resolving && !NeedsWork(p, n) && n != FAILED :: n !in t.taken
  }

  /** The guard a caller can check before asking for a name: it is clean and already handed out to another bucket. */
  predicate Clashes(p: Provider, t: Table, name: string) {
    name !in t.resolving && !NeedsWork(p, name) && name != FAILED && name in t.taken
  }

  lemma ConsistentSeparateIsDistinct(p: Provider, t: Table)
    requires Consistent(p, t) && Separate(p, t)
    ensures Distinct(t)
  {
    forall a, b | a in t.resolving && b in t.resolving && a != b && t.IsResolved(a) && t.resolving[a] != FAILED
      ensures t.resolving[a] != t.resolving[b]
    {
      if NeedsWork(p, a) && Owns(p, t, b, t.resolving[a]) {
        assert Owns(p, t, a, t.resolving[a]);
      }
    }
  }

  lemma ResolveKeepsOwners(p: Provider, t: Table, name: string)
    requires Acceptable(p, name) && Consistent(p, t) && !t.IsResolved(name)
    ensures TakenOwned(p, Resolve(p, t, name))
  {
    EntryFacts(p, name, t.Used() + {name});
    var t' := Resolve(p, t, name);
    forall v | v in t'.taken && v != FAILED ensures exists n :: Owns(p, t', n, v) {
      if v in t.taken {
        var n :| Owns(p, t, n, v);
        assert Owns(p, t', n, v);
      } else {
        assert Owns(p, t', name, v);
      }
    }
    forall v, a, b | v in t'.taken && v != FAILED && Owns(p, t', a, v) && Owns(p, t', b, v) ensures a == b {
      if v in t.taken {
        assert Owns(p, t, a, v) && Owns(p, t, b, v);
      } else {
        assert v !in t.taken && a == name && b == name by {
          assert a != name ==> t.IsResolved(a);
          assert b != name ==> t.IsResolved(b);
        }
      }
    }
  }

  lemma ResolveKeepsConsistent(p: Provider, t: Table, name: string)
    requires Acceptable(p, name) && Consistent(p, t)
    ensures Consistent(p, Resolve(p, t, name))
    ensures Resolve(p, t, name).IsResolved(name)
  {
    if !t.IsResolved(name) {
      EntryFacts(p, name, t.Used() + {name});
      ResolveKeepsOwners(p, t, name);
    }
  }

  /** One call keeps distinct buckets apart exactly when its name does not clash. */
  lemma ResolveKeepsDistinctIff(p: Provider, t: Table, name: string)
    requires Acceptable(p, name) && Consistent(p, t) && Separate(p, t)
    ensures Distinct(Resolve(p, t, name)) <==> !Clashes(p, t, name)
    ensures !Clashes(p, t, name) ==> Separate(p, Resolve(p, t, name))
  {
    var t' := Resolve(p, t, name);
    ResolveKeepsConsistent(p, t, name);
    EntryFacts(p, name, t.Used() + {name});
    if Clashes(p, t, name) {
      var n :| Owns(p, t, n, name);
      assert t'.resolving[n] == name == t'.resolving[name];
    } else {
      ConsistentSeparateIsDistinct(p, t');
    }
  }

  /** A resolved name keeps its answer whatever is resolved later. */
  lemma {:induction false} AnswersNeverChange(p: Provider, t: Table, later: seq<string>, name: string)
    requires t.IsResolved(name)
    ensures ResolveAll(p, t, later).IsResolved(name)
    ensures ResolveAll(p, t, later).resolving[name] == t.resolving[name]
    decreases |later|
  {
    if later != [] {
      AnswersNeverChange(p, Resolve(p, t, later[0]), later[1..], name);
    }
  }

  /** No call of a run clashes at its moment. */
  ghost predicate ClashFree(p: Provider, t: Table, names: seq<string>)
    decreases |names|
  {
    names == [] || (!Clashes(p, t, names[0]) && ClashFree(p, Resolve(p, t, names[0]), names[1..]))
  }

  /** Over any run of calls, distinct buckets end up apart exactly when no call clashes. */
  lemma {:induction false} RunDistinctIff(p: Provider, t: Table, names: seq<string>)
    requires AllAcceptable(p, names) && Consistent(p, t) && Separate(p, t)
    ensures Consistent(p, ResolveAll(p, t, names))
    ensures Distinct(ResolveAll(p, t, names)) <==> ClashFree(p, t, names)
    ensures ClashFree(p, t, names) ==> Separate(p, ResolveAll(p, t, names))
    decreases |names|
  {
    if names == [] {
      ConsistentSeparateIsDistinct(p, t);
    } else {
      var t' := Resolve(p, t, names[0]);
      ResolveKeepsConsistent(p, t, names[0]);
      ResolveKeepsDistinctIff(p, t, names[0]);
      RunKeepsConsistent(p, t', names[1..]);
      if Clashes(p, t, names[0]) {
        var a, b :| a in t'.resolving && b in t'.resolving && a != b && t'.IsResolved(a)
                    && t'.resolving[a] != FAILED && t'.resolving[a] == t'.resolving[b];
        AnswersNeverChange(p, t', names[1..], a);
        AnswersNeverChange(p, t', names[1..], b);
      } else {
        RunDistinctIff(p, t', names[1..]);
      }
    }
  }

  lemma {:induction false} RunKeepsConsistent(p: Provider, t: Table, names: seq<string>)
    requires AllAcceptable(p, names) && Consistent(p, t)
    ensures Consistent(p, ResolveAll(p, t, names))
    ensures forall n | n in names :: ResolveAll(p, t, names).IsResolved(n)
    decreases |names|
  {
    if names != [] {
      ResolveKeepsConsistent(p, t, names[0]);
      RunKeepsConsistent(p, Resolve(p, t, names[0]), names[1..]);
      AnswersNeverChange(p, Resolve(p, t, names[0]), names[1..], names[0]);
    }
  }

  /** Names the resolver was told about up front never clash. */
  lemma {:induction false} ListedNeverClash(p: Provider, t: Table, names: seq<string>)
    requires AllAcceptable(p, names) && Consistent(p, t) && Separate(p, t)
    requires forall n | n in names :: n in t.resolving
    ensures ClashFree(p, t, names)
    decreases |names|
  {
    if names != [] {
      ResolveKeepsConsistent(p, t, names[0]);
      ResolveKeepsDistinctIff(p, t, names[0]);
      ListedNeverClash(p, Resolve(p, t, names[0]), names[1..]);
    }
  }

  /** Construction from any list, in any order and with duplicates: every listed bucket has its final answer,
      distinct buckets have distinct containers, and a clean name is its own container. */
  lemma ConstructionIsInjective(p: Provider, names: seq<string>)
    requires AllAcceptable(p, names)
    ensures var t := Constructed(p, names);
            && Consistent(p, t) && Separate(p, t) && Distinct(t)
            && (forall n | n in names :: t.IsResolved(n) && Resolve(p, t, n) == t)
            && (forall n | n in names && !NeedsWork(p, n) :: t.resolving[n] == n)
  {
    ListedNeverClash(p, Pending(names), names);
    RunDistinctIff(p, Pending(names), names);
    RunKeepsConsistent(p, Pending(names), names);
  }

  /** Names may also be supplied on demand, after construction. The listed answers are then stable, but buckets stay
      apart exactly when no later call clashes. */
  lemma OnDemandDistinctIff(p: Provider, names: seq<string>, later: seq<string>)
    requires AllAcceptable(p, names) && AllAcceptable(p, later)
    ensures var t := Constructed(p, names);
            && (Distinct(ResolveAll(p, t, later)) <==> ClashFree(p, t, later))
            && (forall n | n in names :: n in t.resolving && ResolveAll(p, t, later).IsResolved(n)
                                         && ResolveAll(p, t, later).Answer(n) == t.Answer(n))
  {
    ConstructionIsInjective(p, names);
    var t := Constructed(p, names);
    RunDistinctIff(p, t, later);
    forall n | n in names ensures ResolveAll(p, t, later).IsResolved(n)
                                  && ResolveAll(p, t, later).Answer(n) == t.Answer(n) {
      AnswersNeverChange(p, t, later, n);
    }
  }

  /** The documented on-demand use can clash: buckets "a.b", listed, and "a-b", asked for later, share a container. */
  lemma OnDemandCanClash()
    ensures var t := ResolveAll(S3, Constructed(S3, ["a.b"]), ["a-b"]);
            "a.b" in t.resolving && "a-b" in t.resolving && t.Answer("a.b") == t.Answer("a-b") == Some("a-b")
  {
    var t0 := Pending(["a.b"]);
    assert '.' in "a.b" by { assert "a.b"[1] == '.'; }
    assert Hyphenated(S3, "a.b") == "a-b";
    assert Entry(S3, "a.b", t0.Used() + {"a.b"}) == "a-b";
    var t1 := Resolve(S3, t0, "a.b");
    assert Constructed(S3, ["a.b"]) == t1 by {
      assert ["a.b"][1..] == [];
    }
    assert !NeedsWork(S3, "a-b");
    assert ResolveAll(S3, t1, ["a-b"]) == Resolve(S3, t1, "a-b") by {
      assert ["a-b"][1..] == [];
    }
  }

  // ---------- What the names become ----------

  /** What a resolver without any other name answers. */
  function FirstAnswer(p: Provider, name: string): Option<string> {
    Resolve(p, Table(map[], {}), name).Answer(name)
  }

  /** The answer is the rewritten name when that is another name and not too long. */
  lemma FirstAnswerIsSanitised(p: Provider, name: string)
    requires NeedsWork(p, name) && Sanitised(p, name) != name && '-' in Sanitised(p, name)
    ensures FirstAnswer(p, name) == if |Sanitised(p, name)| <= 63 then Some(Sanitised(p, name)) else None
  {
    NotFailed(Sanitised(p, name));
    assert Table(map[], {}).Used() + {name} == {name};
    AnswerIsEntry(p, Table(map[], {}), name);
  }

  lemma NotFailed(s: string)
    requires '-' in s
    ensures s != FAILED
  {
    assert forall i | 0 <= i < |FAILED| :: FAILED[i] != '-';
  }

  lemma AnswerIsEntry(p: Provider, t: Table, name: string)
    requires !t.IsResolved(name)
    ensures var entry := Entry(p, name, t.Used() + {name});
            Resolve(p, t, name).Answer(name) == if entry == FAILED then None else Some(entry)
  {
  }

  /** A run of k >= 2 hyphens between plain texts is answered with the number k between hyphens. */
  lemma RunIsAnswered(p: Provider, a: string, k: nat, b: string) returns (m: string)
    requires a != "" && b != "" && k >= 2
    requires forall c | c in a + b :: c != '-' && c != '.' && c != '_'
    ensures Spells(m, k)
    ensures var r := a + ("-" + m + "-") + b;
            FirstAnswer(p, a + (Hyphens(k) + b)) == if |r| <= 63 then Some(r) else None
  {
    var name := a + (Hyphens(k) + b);
    assert forall c | c in a :: c in a + b;
    assert forall c | c in b :: c in a + b;
    m := RunIsItsLength(a, k, b);
    NothingToHyphenate(p, a, k, b);
    var r := a + ("-" + m + "-") + b;
    assert name[|a|] == '-' && name[|a| + 1] == '-';
    assert r[|a|] == '-' && r[|a| + 1] == m[0];
    assert Sanitised(p, name) == r;
    FirstAnswerIsSanitised(p, name);
  }

  lemma NothingToHyphenate(p: Provider, a: string, k: nat, b: string)
    requires forall c | c in a + b :: c != '.' && c != '_'
    ensures Hyphenated(p, a + (Hyphens(k) + b)) == a + (Hyphens(k) + b)
  {
    var name := a + (Hyphens(k) + b);
    forall i | 0 <= i < |name| ensures name[i] != '.' && name[i] != '_' {
      if i < |a| {
        assert name[i] == (a + b)[i] && (a + b)[i] in a + b;
      } else if i >= |a| + k {
        assert name[i] == (a + b)[i - k] && (a + b)[i - k] in a + b;
      }
    }
  }

  /** A name whose periods (for GCP, underscores too) stand alone is answered with hyphens in their places. */
  lemma PeriodsAreAnswered(p: Provider, name: string) returns (r: string)
    requires '.' in name || (p.GCP? && '_' in name)
    requires forall i | 0 <= i < |name| - 1 && Separates(p, name[i]) :: !Separates(p, name[i + 1])
    ensures |r| == |name| && forall i | 0 <= i < |name| ::
              r[i] == if name[i] == '.' || (p.GCP? && name[i] == '_') then '-' else name[i]
    ensures FirstAnswer(p, name) == if |name| <= 63 then Some(r) else None
  {
    SeparatorsBecomeHyphens(p, name);
    r := Sanitised(p, name);
    var i :| 0 <= i < |name| && (name[i] == '.' || (p.GCP? && name[i] == '_'));
    assert r[i] == '-';
    FirstAnswerIsSanitised(p, name);
  }

  /** A rewritten name that is in use gets a hyphen and the least number from 2 on that is free. */
  lemma CollisionIsNumbered(p: Provider, name: string, used: set<string>) returns (k: nat, m: string)
    requires NeedsWork(p, name) && Sanitised(p, name) in used
    ensures Entry(p, name, used) != FAILED ==>
              && k >= 2 && Spells(m, k) && Entry(p, name, used) == Sanitised(p, name) + "-" + m
              && Entry(p, name, used) !in used && |Entry(p, name, used)| <= 63
              && forall i | 2 <= i < k :: Suffixed(Sanitised(p, name), i) in used
  {
    k := LeastFree(Sanitised(p, name), used, 2, SuffixLimit(p, used));
    m := SuffixIsNumber(Sanitised(p, name), k);
  }

  // The examples of the documentation.

  lemma DocumentedRun(p: Provider)
    ensures FirstAnswer(p, "bucket--name") == Some("bucket-2-name")
  {
    RunTexts();
    var m := RunIsAnswered(p, "bucket", 2, "name");
    OneDigit(m, 2);
  }

  lemma RunTexts()
    ensures "bucket" + (Hyphens(2) + "name") == "bucket--name"
    ensures "bucket" + ("-" + ['0' + 2 as char] + "-") + "name" == "bucket-2-name"
    ensures forall c | c in "bucket" + "name" :: c != '-' && c != '.' && c != '_'
    ensures '-' !in "bucket" && '-' !in "name"
  {
  }

  lemma DocumentedPeriods()
    ensures FirstAnswer(S3, "bucket.with.period") == Some("bucket-with-period")
  {
    var name := "bucket.with.period";
    assert name[6] == '.';
    var r := PeriodsAreAnswered(S3, name);
    assert r == "bucket-with-period";
  }

  lemma DocumentedCollision()
    ensures FirstAnswer(S3, "bucket.name") == Some("bucket-name")
    ensures var t := Constructed(S3, ["bucket-name", "bucket.name"]);
            "bucket.name" in t.resolving && t.Answer("bucket.name") == Some("bucket-name-2")
  {
    CollisionTexts();
    TakenByClean(S3, "bucket-name", "bucket.name");
    FirstAnswerIsSanitised(S3, "bucket.name");
  }

  lemma CollisionTexts()
    ensures !NeedsWork(S3, "bucket-name") && NeedsWork(S3, "bucket.name") && Sanitised(S3, "bucket.name") == "bucket-name"
    ensures "bucket-name" != "bucket.name" && '-' in "bucket-name"
    ensures "bucket-name" + "-" + ['0' + 2 as char] == "bucket-name-2"
  {
    assert "bucket.name"[6] == '.' && "bucket-name"[6] == '-';
    SeparatorsBecomeHyphens(S3, "bucket.name");
  }

  /** Listed with the clean bucket whose name it would get, a bucket gets that name with the suffix 2. */
  lemma TakenByClean(p: Provider, clean: string, name: string)
    requires !NeedsWork(p, clean) && NeedsWork(p, name) && Sanitised(p, name) == clean && clean != "" && clean != name
    requires |clean| <= 61 && clean + "-" + ['0' + 2 as char] != name
    ensures var t := Constructed(p, [clean, name]);
            name in t.resolving && t.Answer(name) == Some(clean + "-" + ['0' + 2 as char])
  {
    var t1 := Resolve(p, Pending([clean, name]), clean);
    ConstructedOfTwo(p, clean, name);
    CleanFirst(p, clean, name);
    AnswerIsEntry(p, t1, name);
    EntryIsSecond(p, clean, name);
    NotFailed(Suffixed(clean, 2));
  }

  lemma EntryIsSecond(p: Provider, clean: string, name: string)
    requires NeedsWork(p, name) && Sanitised(p, name) == clean && |clean| <= 61
    requires clean + "-" + ['0' + 2 as char] != name
    ensures Entry(p, name, {clean, name}) == Suffixed(clean, 2) == clean + "-" + ['0' + 2 as char]
    ensures '-' in Suffixed(clean, 2)
  {
    var m := SuffixIsNumber(clean, 2);
    OneDigit(m, 2);
    assert Suffixed(clean, 2)[|clean|] == '-';
    assert LeastFree(clean, {clean, name}, 2, SuffixLimit(p, {clean, name})) == 2;
  }

  lemma ConstructedOfTwo(p: Provider, a: string, b: string)
    ensures Constructed(p, [a, b]) == Resolve(p, Resolve(p, Pending([a, b]), a), b)
  {
    assert [a, b][1..] == [b] && [b][1..] == [];
    var t := Resolve(p, Pending([a, b]), a);
    assert ResolveAll(p, t, [b]) == ResolveAll(p, Resolve(p, t, b), []);
  }

  lemma CleanFirst(p: Provider, clean: string, name: string)
    requires !NeedsWork(p, clean) && clean != name
    ensures var t := Resolve(p, Pending([clean, name]), clean);
            !t.IsResolved(name) && t.Used() + {name} == {clean, name}
  {
  }

  // ---------- Validity ----------

  /** Every container given to a legally named bucket has a legal name. */
  ghost predicate AllValid(p: Provider, t: Table) {
    forall n | n in t.resolving && IsBucketName(p, n) && t.IsResolved(n) && t.resolving[n] != FAILED ::
      IsContainerName(t.resolving[n])
  }

  /** In the words of the documentation: 3 to 63 lower-case letters, digits and hyphens, no hyphen at either end and no two
      in a row. */
  lemma ContainerNameMeans(s: string)
    ensures IsContainerName(s) <==>
              && 3 <= |s| <= 63 && s[0] != '-' && s[|s| - 1] != '-'
              && (forall c | c in s :: 'a' <= c <= 'z' || '0' <= c <= '9' || c == '-')
              && forall i | 0 < i < |s| && s[i] == '-' :: s[i - 1] != '-'
  {
    assert forall i | 0 <= i < |s| :: s[i] in s;
    assert HasDoubleHyphen(s) <==> exists i :: 0 < i < |s| && s[i] == '-' && s[i - 1] == '-' by {
      if j :| 0 <= j < |s| - 1 && s[j] == '-' && s[j + 1] == '-' {
        var i := j + 1;
        assert s[i] == '-' && s[i - 1] == '-';
      }
      if i :| 0 < i < |s| && s[i] == '-' && s[i - 1] == '-' {
        var j := i - 1;
        assert s[j] == '-' && s[j + 1] == '-';
      }
    }
  }

  lemma EntryIsContainerName(p: Provider, name: string, used: set<string>)
    requires IsBucketName(p, name) && Entry(p, name, used) != FAILED
    ensures IsContainerName(Entry(p, name, used))
  {
    if NeedsWork(p, name) {
      var base := Sanitised(p, name);
      SanitisedIsContainerText(p, name);
      SuffixedIsContainerText(base, LeastFree(base, used, 2, SuffixLimit(p, used)));
    } else {
      CleanIsContainerName(p, name);
    }
  }

  lemma {:induction false} RunKeepsValid(p: Provider, t: Table, names: seq<string>)
    requires AllValid(p, t)
    ensures AllValid(p, ResolveAll(p, t, names))
    decreases |names|
  {
    if names != [] {
      var name := names[0];
      if !t.IsResolved(name) && IsBucketName(p, name) && Entry(p, name, t.Used() + {name}) != FAILED {
        EntryIsContainerName(p, name, t.Used() + {name});
      }
      RunKeepsValid(p, Resolve(p, t, name), names[1..]);
    }
  }

  /** Whatever is listed and asked for, a legal bucket name that is resolved is resolved to a legal container name. */
  lemma ResolvedNamesAreValid(p: Provider, names: seq<string>, later: seq<string>)
    ensures AllValid(p, ResolveAll(p, Constructed(p, names), later))
  {
    RunKeepsValid(p, Pending(names), names);
    RunKeepsValid(p, Constructed(p, names), later);
  }

  // ---------- The resolver objects ----------

  /** S3BucketNameToAzureResourcesResolver or, with provider GCP, its near copy. */
  class NameResolver {
    const provider: Provider
    var bucketNameResolvingMap: map<string, string>
    var collisionDetectionMap: set<string>

    function T(): Table
      reads this
    {
      Table(bucketNameResolvingMap, collisionDetectionMap)
    }

    constructor (provider: Provider, names: seq<string>)
      requires AllAcceptable(provider, names)
      ensures this.provider == provider && T() == Constructed(provider, names)
    {
      this.provider := provider;
      bucketNameResolvingMap := map[];
      collisionDetectionMap := {};
      new;
      for i := 0 to |names|
        invariant T() == Pending(names[..i])
      {
        bucketNameResolvingMap := bucketNameResolvingMap[names[i] := ""];
        assert names[..i + 1] == names[..i] + [names[i]];
      }
      assert names[..|names|] == names;
      ResolveEach(names);
    }

    method ResolveEach(names: seq<string>)
      requires AllAcceptable(provider, names)
      modifies this
      ensures T() == ResolveAll(provider, old(T()), names)
    {
      for i := 0 to |names|
        invariant ResolveAll(provider, T(), names[i..]) == ResolveAll(provider, old(T()), names)
      {
        assert names[i..][0] == names[i] && names[i..][1..] == names[i + 1..];
        var _ := ResolveName(names[i]);
      }
    }

    method ResolveName(name: string) returns (r: Option<string>)
      requires Acceptable(provider, name)
      modifies this
      ensures T() == Resolve(provider, old(T()), name)
      ensures name in T().resolving && r == T().Answer(name)
      decreases if T().IsResolved(name) then 0 else 1
    {
      if name !in bucketNameResolvingMap || bucketNameResolvingMap[name] == "" {
        bucketNameResolvingMap := bucketNameResolvingMap[name := name];
        EntryFacts(provider, name, T().Used());
        assert old(T()).Used() + {name} == T().Used();
        ResolveNew(name);
        r := ResolveName(name);
      } else if bucketNameResolvingMap[name] == FAILED {
        r := None;
      } else {
        r := Some(bucketNameResolvingMap[name]);
      }
    }

    /** resolveNewBucketNameInternal: the name has just been entered as its own resolution. */
    method ResolveNew(name: string)
      requires Acceptable(provider, name)
      requires name in bucketNameResolvingMap && bucketNameResolvingMap[name] == name
      modifies this
      ensures var entry := Entry(provider, name, old(T()).Used());
              T() == Table(old(T()).resolving[name := entry],
                           old(T()).taken + (if NeedsWork(provider, name) then {entry} else {}))
    {
      if !NeedsWork(provider, name) {
        return;
      }
      var resolved := Hyphenated(provider, name);
      if RewritesRuns(provider, name) {
        resolved := CollapseRuns(resolved);
      }
      if HasCollision(resolved) {
        resolved := FreshSuffix(resolved);
      }
      if |resolved| > MAX_LENGTH {
        resolved := FAILED;
      }
      bucketNameResolvingMap := bucketNameResolvingMap[name := resolved];
      collisionDetectionMap := collisionDetectionMap + {resolved};
    }

    predicate HasCollision(name: string)
      reads this
    {
      name in bucketNameResolvingMap || name in collisionDetectionMap
    }

    /** addSuffix. Only the S3 loop has a bound; the GCP loop ends by pigeonhole. */
    method FreshSuffix(base: string) returns (r: string)
      ensures r == AddSuffix(provider, base, T().Used())
    {
      ghost var used := T().Used();
      ghost var limit := SuffixLimit(provider, used);
      if provider.GCP? {
        FreeSuffixExists(provider, base, used);
      }
      var count := 2;
      r := Suffixed(base, count);
      while HasCollision(r)
        invariant 2 <= count <= limit && r == Suffixed(base, count)
        invariant LeastFree(base, used, count, limit) == LeastFree(base, used, 2, limit)
        decreases limit - count
      {
        if provider.S3? && count > 999 {
          return FAILED;
        }
        count := count + 1;
        r := Suffixed(base, count);
      }
    }
  }

  lemma RunsStep(s: string, i: nat, k: nat, buffer: string)
    requires i < |s|
    ensures s[i] == '-' ==> buffer + HyphenRuns(s[i..], k) == buffer + HyphenRuns(s[i + 1..], k + 1)
    ensures s[i] != '-' ==>
              buffer + HyphenRuns(s[i..], k) == buffer + Separator(k) + [s[i]] + HyphenRuns(s[i + 1..], 0)
  {
    assert s[i..][1..] == s[i + 1..];
  }

  /** The buffer-writing loop over hyphen runs. */
  method CollapseRuns(s: string) returns (buffer: string)
    requires !EndsWithHyphen(s)
    ensures buffer == HyphenRuns(s, 0)
  {
    buffer := "";
    var consecutive := 0;
    for i := 0 to |s|
      invariant buffer + HyphenRuns(s[i..], consecutive) == HyphenRuns(s, 0)
      invariant consecutive > 0 ==> i > 0 && s[i - 1] == '-'
    {
      RunsStep(s, i, consecutive, buffer);
      if s[i] == '-' {
        consecutive := consecutive + 1;
      } else {
        ghost var written := buffer + Separator(consecutive) + [s[i]];
        if consecutive == 1 {
          buffer := buffer + "-";
        } else if consecutive > 1 {
          buffer := buffer + ("-" + Format(consecutive) + "-");
        } else {
          assert buffer + Separator(0) == buffer;
        }
        buffer := buffer + [s[i]];
        assert buffer == written;
        consecutive := 0;
      }
    }
  }
}
