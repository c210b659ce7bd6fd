/** The benchmark source: its URL form (cmd/benchmark.go) and its enumeration (cmd/zc_traverser_benchmark.go). */
module Benchmark {
  import opened Decimal
  import opened Int64
  import opened Text

  const PREFIX := "https://benchmark.invalid?"

  /** The benchmark parameters, or the error FromUrl reports. */
  datatype Parameters = Parameters(fileCount: nat, bytesPerFile: int, numOfFolders: nat) | Invalid

  predicate InRange(fileCount: nat, bytesPerFile: int, numOfFolders: nat) {
    fileCount <= UINT_MAX && numOfFolders <= UINT_MAX && Fits64(bytesPerFile)
  }

  function ToUrl(fileCount: nat, bytesPerFile: int, numOfFolders: nat): string {
    PREFIX + ("fc=" + Format(fileCount) + "&" + ("bpf=" + FormatInt(bytesPerFile) + "&" + ("nf=" + Format(numOfFolders))))
  }

  /** The text between the first '=' of a piece and the next. */
  function ValueText(piece: string): string
    requires |Split(piece, '=')| > 1
  {
    Split(piece, '=')[1]
  }

  lemma KeyHasValue(key: string, rest: string)
    requires '=' !in key
    ensures |Split(key + "=" + rest, '=')| > 1
    ensures '=' !in rest ==> ValueText(key + "=" + rest) == rest
  {
    assert key + "=" + rest == key + ['='] + rest;
    SplitFirst(key, '=', rest);
    if '=' !in rest {
      SplitSingle(rest, '=');
    }
  }

  lemma PrefixHasValue(piece: string, key: string)
    requires '=' !in key && key + "=" <= piece
    ensures |Split(piece, '=')| > 1
  {
    assert piece == key + "=" + piece[|key| + 1..];
    KeyHasValue(key, piece[|key| + 1..]);
  }

  predicate WellFormed(pieces: seq<string>) {
    |pieces| == 3 && "fc=" <= pieces[0] && "bpf=" <= pieces[1] && "nf=" <= pieces[2]
  }

  /** What the text denotes. */
  function Parsed(s: string): Parameters {
    if !HasPrefix(s, PREFIX) then Invalid
    else
      var pieces := Split(s[|PREFIX|..], '&');
      if !WellFormed(pieces) then Invalid
      else
        PrefixHasValue(pieces[0], "fc");
        PrefixHasValue(pieces[1], "bpf");
        PrefixHasValue(pieces[2], "nf");
        var fc := ParseUint64(ValueText(pieces[0]));
        var bpf := ParseInt64(ValueText(pieces[1]));
        var nf := ParseUint64(ValueText(pieces[2]));
        if fc.None? || bpf.None? || nf.None? then Invalid else Parameters(fc.value, bpf.value, nf.value)
  }

  /** FromUrl overwrites its slice of pieces with their values. */
  method FromUrl(s: string) returns (r: Parameters)
    ensures r == Parsed(s)
  {
    if !HasPrefix(s, PREFIX) {
      return Invalid;
    }
    var split := Split(s[|PREFIX|..], '&');
    var pieces := new string[|split|](i requires 0 <= i < |split| => split[i]);
    assert pieces[..] == split;
    if pieces.Length != 3 || !HasPrefix(pieces[0], "fc=") || !HasPrefix(pieces[1], "bpf=") || !HasPrefix(pieces[2], "nf=") {
      return Invalid;
    }
    PrefixHasValue(split[0], "fc");
    PrefixHasValue(split[1], "bpf");
    PrefixHasValue(split[2], "nf");
    pieces[0] := Split(pieces[0], '=')[1];
    pieces[1] := Split(pieces[1], '=')[1];
    pieces[2] := Split(pieces[2], '=')[1];
    var fc := ParseUint64(pieces[0]);
    if fc.None? {
      return Invalid;
    }
    var bpf := ParseInt64(pieces[1]);
    if bpf.None? {
      return Invalid;
    }
    var nf := ParseUint64(pieces[2]);
    if nf.None? {
      return Invalid;
    }
    return Parameters(fc.value, bpf.value, nf.value);
  }

  lemma NumberText(n: int, c: char)
    requires c == '&' || c == '=' || c == '/'
    ensures c !in FormatInt(n) && (n >= 0 ==> c !in Format(n))
  {
    var digits := Format(if n < 0 then -n else n);
    assert forall d | d in digits :: IsDigit(d);
  }

  /** Every benchmark source survives its URL form. */
  lemma UrlRoundTrip(fileCount: nat, bytesPerFile: int, numOfFolders: nat)
    requires InRange(fileCount, bytesPerFile, numOfFolders)
    ensures Parsed(ToUrl(fileCount, bytesPerFile, numOfFolders)) == Parameters(fileCount, bytesPerFile, numOfFolders)
  {
    var fc, bpf, nf := Format(fileCount), FormatInt(bytesPerFile), Format(numOfFolders);
    var a, b, c := "fc=" + fc, "bpf=" + bpf, "nf=" + nf;
    var s := ToUrl(fileCount, bytesPerFile, numOfFolders);
    SplitOfUrl(fileCount, bytesPerFile, numOfFolders);
    assert s[|PREFIX|..] == a + "&" + (b + "&" + c);
    assert WellFormed([a, b, c]);
    NumberText(fileCount, '=');
    NumberText(bytesPerFile, '=');
    NumberText(numOfFolders, '=');
    assert a == "fc" + "=" + fc && b == "bpf" + "=" + bpf && c == "nf" + "=" + nf;
    KeyHasValue("fc", fc);
    KeyHasValue("bpf", bpf);
    KeyHasValue("nf", nf);
    ParseOfFormat(fileCount);
    ParseOfFormatInt(bytesPerFile);
    ParseOfFormat(numOfFolders);
  }

  lemma SplitOfUrl(fileCount: nat, bytesPerFile: int, numOfFolders: nat)
    ensures var a, b, c := "fc=" + Format(fileCount), "bpf=" + FormatInt(bytesPerFile), "nf=" + Format(numOfFolders);
            Split(a + "&" + (b + "&" + c), '&') == [a, b, c]
  {
    var a, b, c := "fc=" + Format(fileCount), "bpf=" + FormatInt(bytesPerFile), "nf=" + Format(numOfFolders);
    NumberText(fileCount, '&');
    NumberText(bytesPerFile, '&');
    NumberText(numOfFolders, '&');
    SplitFirst(a, '&', b + "&" + c);
    SplitFirst(b, '&', c);
    SplitSingle(c, '&');
  }

  // ---------- Enumeration ----------

  function Reversed(s: string): (r: string)
    ensures |r| == |s| && forall i | 0 <= i < |s| :: r[i] == s[|s| - 1 - i]
  {
    seq(|s|, i requires 0 <= i < |s| => s[|s| - 1 - i])
  }

  method ToReversedString(i: nat) returns (r: string)
    ensures r == Reversed(Format(i))
  {
    var s := Format(i);
    var count := |s|;
    var buffer := new char[count](_ => '0');
    var lastIndex := count - 1;
    for n := 0 to count
      invariant forall k | 0 <= k < n :: buffer[lastIndex - k] == s[k]
    {
      buffer[lastIndex - n] := s[n];
    }
    assert forall k | 0 <= k < count :: buffer[k] == buffer[lastIndex - (lastIndex - k)];
    r := buffer[..];
  }

  lemma ReversedInjective(a: string, b: string)
    requires Reversed(a) == Reversed(b)
    ensures a == b
  {
    forall i | 0 <= i < |a| ensures a[i] == b[i] {
      assert Reversed(a)[|a| - 1 - i] == a[i];
      assert Reversed(b)[|b| - 1 - i] == b[i];
    }
  }

  /** The relative path of the i-th file. */
  function PathOf(i: nat, numOfFolders: nat): string {
    var name := Reversed(Format(i));
    if numOfFolders > 0 then Reversed(Format(i % numOfFolders)) + "/" + name else name
  }

  /** Different files have different paths, whatever the folders. */
  lemma PathOfInjective(i: nat, j: nat, numOfFolders: nat)
    requires PathOf(i, numOfFolders) == PathOf(j, numOfFolders)
    ensures i == j
  {
    if numOfFolders > 0 {
      PathSplits(i, numOfFolders);
      PathSplits(j, numOfFolders);
    }
    ReversedInjective(Format(i), Format(j));
    FormatInjective(i, j);
  }

  /** The path of a file is its number backwards, after the number of its folder backwards if there are folders. */
  lemma PathText(i: nat, numOfFolders: nat) returns (folder: string, name: string)
    ensures Spells(folder, if numOfFolders > 0 then i % numOfFolders else 0) && Spells(name, i)
    ensures |PathOf(i, 0)| == |name| && forall k | 0 <= k < |name| :: PathOf(i, 0)[k] == name[|name| - 1 - k]
    ensures numOfFolders > 0 ==>
              var path := PathOf(i, numOfFolders);
              && |path| == |folder| + 1 + |name| && path[|folder|] == '/' && path[|folder| + 1..] == PathOf(i, 0)
              && forall k | 0 <= k < |folder| :: path[k] == folder[|folder| - 1 - k]
  {
    folder, name := Format(if numOfFolders > 0 then i % numOfFolders else 0), Format(i);
    FormatSpells(if numOfFolders > 0 then i % numOfFolders else 0);
    FormatSpells(i);
  }

  /** The URL of one file of two bytes in three folders. */
  lemma UrlOfExample()
    ensures ToUrl(1, 2, 3) == "https://benchmark.invalid?fc=1&bpf=2&nf=3"
  {
    assert Format(1) == "1" && FormatInt(2) == "2" && Format(3) == "3";
    assert "fc=" + "1" + "&" + ("bpf=" + "2" + "&" + ("nf=" + "3")) == "fc=1&bpf=2&nf=3";
  }

  lemma PathSplits(i: nat, numOfFolders: nat)
    requires numOfFolders > 0
    ensures Split(PathOf(i, numOfFolders), '/') == [Reversed(Format(i % numOfFolders)), Reversed(Format(i))]
  {
    NoSeparator(i % numOfFolders);
    NoSeparator(i);
    SplitFirst(Reversed(Format(i % numOfFolders)), '/', Reversed(Format(i)));
    SplitSingle(Reversed(Format(i)), '/');
  }

  lemma NoSeparator(n: nat)
    ensures '/' !in Reversed(Format(n))
  {
    var s := Format(n);
    assert forall i | 0 <= i < |s| :: IsDigit(Reversed(s)[i]) by {
      forall i | 0 <= i < |s| ensures IsDigit(Reversed(s)[i]) {
        assert IsDigit(s[|s| - 1 - i]);
      }
    }
  }

  /** The uint loop counter after n files. */
  function Counter(n: nat): (c: nat)
    ensures c <= UINT_MAX && (n < UINT_MAX ==> c == n + 1)
  {
    if n == 0 then 1 else NextUint(Counter(n - 1))
  }

  /** i++ of a uint. */
  function NextUint(i: nat): nat {
    if i == UINT_MAX then 0 else i + 1
  }

  /** The counter passes the file count some time, which is the only way out of the loop, exactly when the file count is
      not the largest uint. */
  lemma CounterEndsIff(fileCount: nat)
    requires fileCount <= UINT_MAX
    ensures (exists n: nat :: Counter(n) > fileCount) <==> fileCount < UINT_MAX
  {
    assert forall n: nat :: Counter(n) <= UINT_MAX;
    if fileCount < UINT_MAX {
      assert Counter(fileCount) > fileCount;
      assert exists n: nat :: Counter(n) > fileCount;
    }
  }

  /** Traverse emits exactly fileCount objects with pairwise distinct paths. */
  method Traverse(fileCount: nat, numOfFolders: nat) returns (paths: seq<string>)
    requires fileCount < UINT_MAX
    ensures |paths| == fileCount
    ensures forall k | 0 <= k < fileCount :: paths[k] == PathOf(k + 1, numOfFolders)
    ensures forall j, k | 0 <= j < k < fileCount :: paths[j] != paths[k]
  {
    paths := [];
    var i := 1;
    while i <= fileCount
      invariant |paths| <= fileCount && i == Counter(|paths|)
      invariant forall k | 0 <= k < |paths| :: paths[k] == PathOf(k + 1, numOfFolders)
      decreases fileCount - |paths|
    {
      var name := ToReversedString(i);
      var relativePath := name;
      if numOfFolders > 0 {
        var assignedFolder := ToReversedString(i % numOfFolders);
        relativePath := assignedFolder + "/" + relativePath;
      }
      paths := paths + [relativePath];
      i := NextUint(i);
    }
    forall j, k | 0 <= j < k < fileCount ensures paths[j] != paths[k] {
      if paths[j] == paths[k] {
        PathOfInjective(j + 1, k + 1, numOfFolders);
      }
    }
  }
}
