/** Bucket and container names: the rules each side documents, and the rewriting of cmd/s3NameResolver.go and
    cmd/gcpNameResolver.go that turns one into the other. */
module NamingRules {
  import opened Decimal

  /** The two resolvers differ in the characters they replace, in when they look for double hyphens and in their
      suffix search. */
  datatype Provider = S3 | GCP

  const MAX_LENGTH := 63

  predicate IsAlnum(c: char) {
    'a' <= c <= 'z' || IsDigit(c)
  }

  predicate HasDoubleHyphen(s: string) {
    exists i | 0 <= i < |s| - 1 :: s[i] == '-' && s[i + 1] == '-'
  }

  /** Everything Azure asks of a container name but its length. */
  predicate IsContainerText(s: string) {
    && s != ""
    && (forall i | 0 <= i < |s| :: IsAlnum(s[i]) || s[i] == '-')
    && s[0] != '-' && s[|s| - 1] != '-'
    && !HasDoubleHyphen(s)
  }

  predicate IsContainerName(s: string) {
    3 <= |s| <= MAX_LENGTH && IsContainerText(s)
  }

  /** The characters of a provider's bucket names. */
  predicate IsBucketChar(p: Provider, c: char) {
    IsAlnum(c) || c == '-' || c == '.' || (p.GCP? && c == '_')
  }

  /** The documented bucket rules, without those about IP addresses and "google". */
  predicate IsBucketName(p: Provider, s: string) {
    && 3 <= |s|
    && (p.S3? || '.' !in s ==> |s| <= MAX_LENGTH)
    && (forall i | 0 <= i < |s| :: IsBucketChar(p, s[i]))
    && IsAlnum(s[0]) && IsAlnum(s[|s| - 1])
    && (p.S3? ==> forall i | 0 < i < |s| - 1 && s[i] == '.' :: IsAlnum(s[i - 1]) && IsAlnum(s[i + 1]))
  }

  // ---------- The rewriting ----------

  /** strings.Replace(s, from, to, -1) for single characters. */
  function ReplaceChar(s: string, from: char, to: char): (r: string)
    ensures |r| == |s|
    ensures forall i | 0 <= i < |s| :: r[i] == if s[i] == from then to else s[i]
  {
    seq(|s|, i requires 0 <= i < |s| => if s[i] == from then to else s[i])
  }

  /** What is written for a run of k hyphens. */
  function Separator(k: nat): string {
    if k == 0 then "" else if k == 1 then "-" else "-" + Format(k) + "-"
  }

  /** s, which follows k hyphens, with every hyphen run written as its Separator. Hyphens at the very end are lost:
      the code panics on them. */
  function HyphenRuns(s: string, k: nat): string {
    if s == "" then ""
    else if s[0] == '-' then HyphenRuns(s[1..], k + 1)
    else Separator(k) + [s[0]] + HyphenRuns(s[1..], 0)
  }

  predicate EndsWithHyphen(s: string) {
    s != "" && s[|s| - 1] == '-'
  }

  /** Whether resolveNewBucketNameInternal does anything to the name. */
  predicate NeedsWork(p: Provider, name: string) {
    '.' in name || HasDoubleHyphen(name) || (p.GCP? && '_' in name)
  }

  /** Step 1: single-character replacements. */
  function Hyphenated(p: Provider, name: string): (r: string)
    ensures |r| == |name|
  {
    var noPeriods := ReplaceChar(name, '.', '-');
    if p.S3? then noPeriods else ReplaceChar(noPeriods, '_', '-')
  }

  /** Whether step 2, the rewriting of hyphen runs, happens: S3 looks at the original name, GCP at the new one. */
  predicate RewritesRuns(p: Provider, name: string) {
    HasDoubleHyphen(if p.S3? then name else Hyphenated(p, name))
  }

  /** The code panics: the name ends in what has become a hyphen while hyphen runs are being rewritten. */
  predicate Panics(p: Provider, name: string) {
    NeedsWork(p, name) && RewritesRuns(p, name) && EndsWithHyphen(Hyphenated(p, name))
  }

  function Sanitised(p: Provider, name: string): string {
    if RewritesRuns(p, name) then HyphenRuns(Hyphenated(p, name), 0) else Hyphenated(p, name)
  }

  /** fmt.Sprintf("%s-%d", base, k). */
  function Suffixed(base: string, k: nat): string {
    base + "-" + Format(k)
  }

  lemma SuffixedInjective(base: string, a: nat, b: nat)
    requires Suffixed(base, a) == Suffixed(base, b)
    ensures a == b
  {
    assert Suffixed(base, a)[|base| + 1..] == Format(a);
    assert Suffixed(base, b)[|base| + 1..] == Format(b);
    FormatInjective(a, b);
  }

  // ---------- What the rewriting promises ----------

  function Hyphens(k: nat): string {
    seq(k, i => '-')
  }

  /** A run of k hyphens between two non-hyphens becomes "-k-", and the rest is rewritten as if it stood alone. */
  lemma RunBecomesCount(a: string, k: nat, b: string)
    requires a != "" && !EndsWithHyphen(a) && b != "" && b[0] != '-'
    ensures HyphenRuns(a + (Hyphens(k) + b), 0) == HyphenRuns(a, 0) + Separator(k) + HyphenRuns(b, 0)
  {
    RunsCompose(a, 0, Hyphens(k) + b);
    SkipHyphens(k, 0, b);
  }

  /** Between texts without hyphens a run of k >= 2 hyphens becomes the number k between two hyphens. */
  lemma RunIsItsLength(a: string, k: nat, b: string) returns (m: string)
    requires a != "" && '-' !in a && b != "" && '-' !in b && k >= 2
    ensures Spells(m, k) && HyphenRuns(a + (Hyphens(k) + b), 0) == a + ("-" + m + "-") + b
  {
    m := Format(k);
    FormatSpells(k);
    RunBetween(a, k, b);
  }

  /** A single hyphen between such texts stays. */
  lemma SingleHyphenStays(a: string, b: string)
    requires a != "" && '-' !in a && b != "" && '-' !in b
    ensures HyphenRuns(a + ("-" + b), 0) == a + ("-" + b)
  {
    RunBetween(a, 1, b);
    assert Hyphens(1) == "-";
    assert a + "-" + b == a + ("-" + b);
  }

  lemma RunBetween(a: string, k: nat, b: string)
    requires a != "" && '-' !in a && b != "" && '-' !in b
    ensures HyphenRuns(a + (Hyphens(k) + b), 0) == a + Separator(k) + b
  {
    assert a[|a| - 1] in a && b[0] in b;
    NoHyphensLeft(a);
    NoHyphensLeft(b);
    RunBecomesCount(a, k, b);
  }

  lemma {:induction false} NoHyphensLeft(s: string)
    requires '-' !in s
    ensures HyphenRuns(s, 0) == s
  {
    if s != "" {
      assert s[0] in s && forall c | c in s[1..] :: c in s;
      NoHyphensLeft(s[1..]);
    }
  }

  /** A suffixed name is the name, a hyphen and the number. */
  lemma SuffixIsNumber(base: string, k: nat) returns (m: string)
    ensures Spells(m, k) && Suffixed(base, k) == base + "-" + m
  {
    m := Format(k);
    FormatSpells(k);
  }

  /** Which names are left alone: those without a period, without two adjacent hyphens and, for GCP, without an
      underscore. */
  lemma NeedsWorkIff(p: Provider, name: string)
    ensures !NeedsWork(p, name) <==>
              && (forall i | 0 <= i < |name| :: name[i] != '.' && (p.GCP? ==> name[i] != '_'))
              && forall i | 0 <= i < |name| - 1 && name[i] == '-' :: name[i + 1] != '-'
  {
  }

  /** What is a hyphen in the end. */
  predicate Separates(p: Provider, c: char) {
    c == '-' || c == '.' || (p.GCP? && c == '_')
  }

  /** Periods and, for GCP, underscores become hyphens; when none of them then meets another hyphen, nothing else
      changes. */
  lemma SeparatorsBecomeHyphens(p: Provider, name: string)
    requires forall i | 0 <= i < |name| - 1 && Separates(p, name[i]) :: !Separates(p, name[i + 1])
    ensures var r := Sanitised(p, name);
            |r| == |name| && forall i | 0 <= i < |name| ::
              r[i] == if name[i] == '.' || (p.GCP? && name[i] == '_') then '-' else name[i]
  {
    var h := Hyphenated(p, name);
    forall i | 0 <= i < |name| - 1 ensures !(h[i] == '-' && h[i + 1] == '-') && !(name[i] == '-' && name[i + 1] == '-') {
      assert h[i] == '-' <==> Separates(p, name[i]);
      assert h[i + 1] == '-' <==> Separates(p, name[i + 1]);
    }
  }

  /** After a non-hyphen the rewriting starts afresh. */
  lemma {:induction false} RunsCompose(a: string, pending: nat, rest: string)
    requires a != "" && !EndsWithHyphen(a)
    ensures HyphenRuns(a + rest, pending) == HyphenRuns(a, pending) + HyphenRuns(rest, 0)
  {
    assert (a + rest)[1..] == a[1..] + rest;
    if |a| > 1 {
      RunsCompose(a[1..], if a[0] == '-' then pending + 1 else 0, rest);
    } else {
      assert a[1..] + rest == rest;
    }
  }

  lemma SkipHyphens(k: nat, pending: nat, b: string)
    requires b != "" && b[0] != '-'
    ensures HyphenRuns(Hyphens(k) + b, pending) == Separator(k + pending) + HyphenRuns(b, 0)
  {
    var s := Hyphens(k) + b;
    SkipRun(s, k, pending);
    assert s[k..] == b;
  }

  lemma {:induction false} SkipRun(s: string, k: nat, pending: nat)
    requires k < |s| && s[k] != '-' && forall i | 0 <= i < k :: s[i] == '-'
    ensures HyphenRuns(s, pending) == Separator(k + pending) + HyphenRuns(s[k..], 0)
    decreases k
  {
    if k == 0 {
      assert s[0..] == s;
    } else {
      SkipRun(s[1..], k - 1, pending + 1);
      assert s[1..][k - 1..] == s[k..];
    }
  }

  /** Joining texts keeps double hyphens out unless a hyphen meets a hyphen. */
  lemma ConcatNoDoubleHyphen(a: string, b: string)
    requires !HasDoubleHyphen(a) && !HasDoubleHyphen(b)
    requires EndsWithHyphen(a) ==> b == "" || b[0] != '-'
    ensures !HasDoubleHyphen(a + b)
  {
    var s := a + b;
    forall i | 0 <= i < |s| - 1 ensures !(s[i] == '-' && s[i + 1] == '-') {
      if i >= |a| {
        assert s[i] == b[i - |a|] && s[i + 1] == b[i - |a| + 1];
      }
    }
  }

  lemma SeparatorShape(k: nat)
    ensures !HasDoubleHyphen(Separator(k))
    ensures forall c | c in Separator(k) :: IsAlnum(c) || c == '-'
    ensures k >= 2 ==> |Separator(k)| >= 3
  {
    if k >= 2 {
      ConcatNoDoubleHyphen("-" + Format(k), "-");
    }
  }

  /** The loop invariant's meaning: whatever precedes s, its rewriting has no double hyphen, ends well, keeps its first
      character and is not short. */
  lemma {:induction false} HyphenRunsShape(s: string, k: nat)
    requires s != "" && !EndsWithHyphen(s)
    requires forall c | c in s :: IsAlnum(c) || c == '-'
    ensures var r := HyphenRuns(s, k);
            && r != "" && !HasDoubleHyphen(r) && !EndsWithHyphen(r)
            && (forall c | c in r :: IsAlnum(c) || c == '-')
            && (k == 0 && s[0] != '-' ==> r[0] == s[0])
            && (|r| >= 3 || (|r| >= |s| + (if k == 0 then 0 else 1) && k <= 1))
  {
    SeparatorShape(k);
    if s[0] == '-' {
      HyphenRunsShape(s[1..], k + 1);
    } else {
      var head := Separator(k) + [s[0]];
      ConcatNoDoubleHyphen(Separator(k), [s[0]]);
      if |s| > 1 {
        HyphenRunsShape(s[1..], 0);
        ConcatNoDoubleHyphen(head, HyphenRuns(s[1..], 0));
      } else {
        assert HyphenRuns(s, k) == head;
      }
    }
  }

  lemma HyphenatedChars(p: Provider, name: string)
    requires IsBucketName(p, name)
    ensures forall c | c in Hyphenated(p, name) :: IsAlnum(c) || c == '-'
    ensures IsAlnum(Hyphenated(p, name)[0]) && IsAlnum(Hyphenated(p, name)[|name| - 1])
    ensures !RewritesRuns(p, name) ==> !HasDoubleHyphen(Hyphenated(p, name))
  {
    var h := Hyphenated(p, name);
    forall i | 0 <= i < |h| ensures IsAlnum(h[i]) || h[i] == '-' {
      assert IsBucketChar(p, name[i]);
    }
    if p.S3? {
      if i :| 0 <= i < |h| - 1 && h[i] == '-' && h[i + 1] == '-' {
        assert name[i] == '-' && name[i + 1] == '-';
      }
    }
  }

  /** A legal bucket name is never refused by a panic, and its rewriting is a container text of at least 3 characters. */
  lemma SanitisedIsContainerText(p: Provider, name: string)
    requires IsBucketName(p, name)
    ensures !Panics(p, name)
    ensures IsContainerText(Sanitised(p, name)) && |Sanitised(p, name)| >= 3
  {
    HyphenatedChars(p, name);
    var h := Hyphenated(p, name);
    if RewritesRuns(p, name) {
      HyphenRunsShape(h, 0);
      ShapeIsContainerText(HyphenRuns(h, 0));
    } else {
      ShapeIsContainerText(h);
    }
  }

  lemma ShapeIsContainerText(s: string)
    requires s != "" && IsAlnum(s[0]) && !EndsWithHyphen(s) && !HasDoubleHyphen(s)
    requires forall c | c in s :: IsAlnum(c) || c == '-'
    ensures IsContainerText(s)
  {
  }

  /** A legal bucket name that needs no work is already a container name. */
  lemma CleanIsContainerName(p: Provider, name: string)
    requires IsBucketName(p, name) && !NeedsWork(p, name)
    ensures IsContainerName(name)
  {
    forall i | 0 <= i < |name| ensures IsAlnum(name[i]) || name[i] == '-' {
      assert IsBucketChar(p, name[i]) && name[i] in name;
    }
  }

  lemma SuffixedIsContainerText(base: string, k: nat)
    requires IsContainerText(base)
    ensures IsContainerText(Suffixed(base, k)) && |Suffixed(base, k)| > |base|
  {
    ConcatNoDoubleHyphen(base, "-");
    ConcatNoDoubleHyphen(base + "-", Format(k));
  }

  /** Only the empty name is rewritten to the empty name. */
  lemma SanitisedNonEmpty(p: Provider, name: string)
    requires name != "" && NeedsWork(p, name) && !Panics(p, name)
    ensures Sanitised(p, name) != ""
  {
    if RewritesRuns(p, name) {
      HyphenRunsNonEmpty(Hyphenated(p, name), 0);
    }
  }

  lemma {:induction false} HyphenRunsNonEmpty(s: string, k: nat)
    requires s != "" && !EndsWithHyphen(s)
    ensures HyphenRuns(s, k) != ""
  {
    if s[0] == '-' {
      HyphenRunsNonEmpty(s[1..], k + 1);
    }
  }
}
