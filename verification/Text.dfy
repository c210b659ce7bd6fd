/** The functions of Go's strings package that the modelled code uses. */
module Text {

  predicate HasPrefix(s: string, prefix: string) {
    prefix <= s
  }

  /** strings.ReplaceAll for a non-empty old text: leftmost non-overlapping matches. */
  function ReplaceAll(s: string, from: string, to: string): string
    requires from != ""
  {
    if s == "" then ""
    else if from <= s then to + ReplaceAll(s[|from|..], from, to)
    else [s[0]] + ReplaceAll(s[1..], from, to)
  }

  /** strings.Split at one character. */
  function Split(s: string, sep: char): (parts: seq<string>)
    ensures parts != []
    ensures forall i | 0 <= i < |parts| :: sep !in parts[i]
  {
    if s == "" then [""]
    else
      var rest := Split(s[1..], sep);
      if s[0] == sep then [""] + rest else [[s[0]] + rest[0]] + rest[1..]
  }

  /** strings.Join with one character. */
  function Join(parts: seq<string>, sep: char): string {
    if parts == [] then "" else if |parts| == 1 then parts[0] else parts[0] + [sep] + Join(parts[1..], sep)
  }

  lemma {:induction false} JoinOfSplit(s: string, sep: char)
    ensures Join(Split(s, sep), sep) == s
  {
    if s != "" {
      JoinOfSplit(s[1..], sep);
      var rest := Split(s[1..], sep);
      if s[0] == sep {
        assert ([""] + rest)[1..] == rest;
      } else {
        assert ([[s[0]] + rest[0]] + rest[1..])[1..] == rest[1..];
      }
    }
  }

  /** A text without the separator is one part. */
  lemma {:induction false} SplitSingle(s: string, sep: char)
    requires sep !in s
    ensures Split(s, sep) == [s]
  {
    if s != "" {
      assert s[0] in s && forall c | c in s[1..] :: c in s;
      SplitSingle(s[1..], sep);
      assert [s[0]] + s[1..] == s;
    }
  }

  /** The part before the first separator comes off whole. */
  lemma {:induction false} SplitFirst(head: string, sep: char, tail: string)
    requires sep !in head
    ensures Split(head + [sep] + tail, sep) == [head] + Split(tail, sep)
  {
    var s := head + [sep] + tail;
    if head == "" {
      assert s[1..] == tail;
    } else {
      assert s[1..] == head[1..] + [sep] + tail;
      assert forall c | c in head[1..] :: c in head;
      SplitFirst(head[1..], sep, tail);
      assert s[0] == head[0] && head[0] in head;
      assert [head[0]] + head[1..] == head;
    }
  }

  /** Joining parts without separators loses nothing. */
  lemma {:induction false} SplitOfJoin(parts: seq<string>, sep: char)
    requires parts != [] && forall i | 0 <= i < |parts| :: sep !in parts[i]
    ensures Split(Join(parts, sep), sep) == parts
  {
    if |parts| == 1 {
      SplitSingle(parts[0], sep);
    } else {
      SplitOfJoin(parts[1..], sep);
      SplitFirst(parts[0], sep, Join(parts[1..], sep));
    }
  }
}
