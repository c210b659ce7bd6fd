/** pathEncodeRules of cmd/copyEnumeratorInit.go: nine characters that some destinations cannot hold are escaped on
    the way there and unescaped on the way back, by one strings.ReplaceAll pass per table entry, in random map order. */
module PathEscape {
  import opened Common
  import opened Text

  const SPECIALS := {'<', '>', '\\', '/', ':', '"', '|', '?', '*'}

  /** encodedInvalidCharacters. */
  const ENCODED: map<char, string> := map[
    '<' := "%3C", '>' := "%3E", '\\' := "%5C", '/' := "%2F", ':' := "%3A",
    '"' := "%22", '|' := "%7C", '?' := "%3F", '*' := "%2A"]

  /** reverseEncodedChars. */
  const DECODED: map<string, char> := map[
    "%3C" := '<', "%3E" := '>', "%5C" := '\\', "%2F" := '/', "%3A" := ':',
    "%22" := '"', "%7C" := '|', "%3F" := '?', "%2A" := '*']

  lemma TablesAreInverse()
    ensures ENCODED.Keys == SPECIALS
    ensures forall c | c in SPECIALS :: ENCODED[c] in DECODED && DECODED[ENCODED[c]] == c
    ensures forall e | e in DECODED :: DECODED[e] in SPECIALS && ENCODED[DECODED[e]] == e
  {
  }

  /** An upper-case hexadecimal digit. */
  function HexValue(c: char): Option<nat> {
    if '0' <= c <= '9' then Some(c as nat - '0' as nat)
    else if 'A' <= c <= 'F' then Some(c as nat - 'A' as nat + 10)
    else None
  }

  /** The tables hold the nine characters that Windows forbids in names, each with its percent encoding. */
  lemma EscapesAreHex(c: char)
    ensures c in ENCODED <==> c in "<>\\/:\"|?*"
    ensures c in ENCODED ==>
              && |ENCODED[c]| == 3 && ENCODED[c][0] == '%' && HexValue(ENCODED[c][1]).Some? && HexValue(ENCODED[c][2]).Some?
              && 16 * HexValue(ENCODED[c][1]).value + HexValue(ENCODED[c][2]).value == c as nat
  {
    var nine := "<>\\/:\"|?*";
    assert nine[0] == '<' && nine[1] == '>' && nine[2] == '\\' && nine[3] == '/' && nine[4] == ':' && nine[5] == '"'
           && nine[6] == '|' && nine[7] == '?' && nine[8] == '*';
  }

  /** The escape of a special character. */
  function Escape(c: char): (e: string)
    requires c in SPECIALS
    ensures |e| == 3 && e[0] == '%' && e[1] != '%' && e[2] != '%'
    ensures forall i | 0 <= i < 3 :: e[i] !in SPECIALS
  {
    ENCODED[c]
  }

  /** Whether s begins with the escape of some character of done. */
  predicate StartsEscape(s: string, done: set<char>) {
    |s| >= 3 && s[..3] in DECODED && DECODED[s[..3]] in done
  }

  lemma EscapeHead(s: string, done: set<char>)
    ensures StartsEscape(s, done) ==> s[..3] == Escape(DECODED[s[..3]]) && s[0] == '%' && s[1] != '%' && s[2] != '%'
  {
    TablesAreInverse();
    if StartsEscape(s, done) {
      assert s[..3][0] == s[0] && s[..3][1] == s[1] && s[..3][2] == s[2];
    }
  }

  /** A longer text starts with what a shorter one starts with. */
  lemma EscapeOfPrefix(a: string, b: string, done: set<char>)
    requires a <= b
    ensures StartsEscape(a, done) ==> StartsEscape(b, done)
  {
    if |a| >= 3 {
      assert a[..3] == b[..3];
    }
  }

  /** Escapes do not overlap: nothing starts inside one. */
  lemma NothingStartsInside(s: string, done: set<char>)
    requires StartsEscape(s, SPECIALS)
    ensures s == Escape(DECODED[s[..3]]) + s[3..] && s[0] == '%' && s[1] !in SPECIALS && s[2] !in SPECIALS
    ensures s[1] != '%' && s[2] != '%'
    ensures !StartsEscape(s[1..], done) && !StartsEscape(s[2..], done)
  {
    EscapeHead(s, SPECIALS);
    EscapeHead(s[1..], done);
    EscapeHead(s[2..], done);
    var e := Escape(DECODED[s[..3]]);
    assert s[1] == e[1] && s[2] == e[2];
  }

  // ---------- The single-pass codec ----------

  /** s with the characters of done escaped, in one pass. */
  function Encode(s: string, done: set<char>): string
    requires done <= SPECIALS
  {
    if s == "" then ""
    else (if s[0] in done then Escape(s[0]) else [s[0]]) + Encode(s[1..], done)
  }

  /** s with the escapes of done replaced, in one pass. */
  function Decode(s: string, done: set<char>): string {
    if s == "" then ""
    else if StartsEscape(s, done) then [DECODED[s[..3]]] + Decode(s[3..], done)
    else [s[0]] + Decode(s[1..], done)
  }

  lemma EncodeCopiesEscape(s: string, done: set<char>)
    requires done <= SPECIALS && StartsEscape(s, SPECIALS)
    ensures Encode(s, done) == s[..3] + Encode(s[3..], done)
  {
    NothingStartsInside(s, done);
    assert s[1..][1..] == s[2..] && s[2..][1..] == s[3..];
    assert Encode(s[2..], done) == [s[2]] + Encode(s[3..], done);
    assert Encode(s[1..], done) == [s[1]] + Encode(s[2..], done);
  }

  lemma DecodeCopiesEscape(s: string, done: set<char>)
    requires StartsEscape(s, SPECIALS) && !StartsEscape(s, done)
    ensures Decode(s, done) == s[..3] + Decode(s[3..], done)
  {
    NothingStartsInside(s, done);
    assert s[1..][1..] == s[2..] && s[2..][1..] == s[3..];
    assert Decode(s[2..], done) == [s[2]] + Decode(s[3..], done);
    assert Decode(s[1..], done) == [s[1]] + Decode(s[2..], done);
  }

  /** s contains an escape of done. */
  ghost predicate ContainsEscape(s: string, done: set<char>) {
    exists i | 0 <= i <= |s| :: StartsEscape(s[i..], done)
  }

  // ---------- Any order of ReplaceAll passes is the single pass ----------

  lemma ReplaceKeeps(s: string, from: string, to: string)
    requires from != "" && s != "" && s[0] != from[0]
    ensures ReplaceAll(s, from, to) == [s[0]] + ReplaceAll(s[1..], from, to)
  {
  }

  lemma {:induction false} ReplaceSkips(head: string, s: string, from: string, to: string)
    requires from != "" && from[0] !in head
    ensures ReplaceAll(head + s, from, to) == head + ReplaceAll(s, from, to)
  {
    if head == "" {
      assert head + s == s;
    } else {
      ReplaceKeeps(head + s, from, to);
      assert (head + s)[1..] == head[1..] + s;
      ReplaceSkips(head[1..], s, from, to);
    }
  }

  /** One more pass of the encoder escapes one more character. */
  lemma {:induction false} EncodePass(s: string, done: set<char>, k: char)
    requires done <= SPECIALS && k in SPECIALS && k !in done
    ensures ReplaceAll(Encode(s, done), [k], Escape(k)) == Encode(s, done + {k})
  {
    if s != "" {
      EncodePass(s[1..], done, k);
      var rest := Encode(s[1..], done);
      if s[0] == k {
        assert Encode(s, done) == [k] + rest && [k] <= [k] + rest && ([k] + rest)[1..] == rest;
      } else {
        ReplaceSkips(if s[0] in done then Escape(s[0]) else [s[0]], rest, [k], Escape(k));
      }
    }
  }

  /** Undecoded text that reads as an escape was one before. */
  lemma PrefixSurvives(s: string, done: set<char>, k: char)
    requires k in SPECIALS && Escape(k) <= Decode(s, done)
    ensures |s| >= 3 && s[..3] == Escape(k)
  {
    TablesAreInverse();
    var d := Decode(s, done);
    assert d[0] == '%' && d[1] == Escape(k)[1] && d[2] == Escape(k)[2];
    assert !StartsEscape(s, done);
    assert d[1..] == Decode(s[1..], done) && !StartsEscape(s[1..], done);
    assert d[2..] == Decode(s[2..], done) && !StartsEscape(s[2..], done);
    assert s[..3] == Escape(k);
  }

  /** One more pass of the decoder replaces one more escape. */
  lemma {:induction false} DecodePass(s: string, done: set<char>, k: char)
    requires done <= SPECIALS && k in SPECIALS && k !in done
    ensures ReplaceAll(Decode(s, done), Escape(k), [k]) == Decode(s, done + {k})
  {
    TablesAreInverse();
    if s == "" {
    } else if StartsEscape(s, done) {
      DecodePass(s[3..], done, k);
      ReplaceKeeps(Decode(s, done), Escape(k), [k]);
    } else if StartsEscape(s, done + {k}) {
      DecodePass(s[3..], done, k);
      var rest := Decode(s[3..], done);
      DecodeCopiesEscape(s, done);
      assert (Escape(k) + rest)[3..] == rest;
    } else {
      DecodePass(s[1..], done, k);
      if Escape(k) <= Decode(s, done) {
        PrefixSurvives(s, done, k);
      }
    }
  }

  // ---------- Round trips ----------

  lemma DecodeOfEscape(c: char, rest: string)
    requires c in SPECIALS
    ensures Decode(Escape(c) + rest, SPECIALS) == [c] + Decode(rest, SPECIALS)
  {
    TablesAreInverse();
    assert (Escape(c) + rest)[..3] == Escape(c) && (Escape(c) + rest)[3..] == rest;
  }

  /** Encoding any of the nine characters is invisible to the decoder. */
  lemma {:induction false} DecodeOfEncode(s: string, done: set<char>)
    requires done <= SPECIALS
    ensures Decode(Encode(s, done), SPECIALS) == Decode(s, SPECIALS)
  {
    if s == "" {
    } else if s[0] in done {
      DecodeOfEncode(s[1..], done);
      DecodeOfEscape(s[0], Encode(s[1..], done));
      EscapeHead(s, SPECIALS);
    } else if StartsEscape(s, SPECIALS) {
      var c := DECODED[s[..3]];
      NothingStartsInside(s, done);
      EncodeCopiesEscape(s, done);
      DecodeOfEncode(s[3..], done);
      DecodeOfEscape(c, Encode(s[3..], done));
    } else {
      DecodeOfEncode(s[1..], done);
      EncodeStartsNoEscape(s, done);
      EncodeHead(s, done);
    }
  }

  lemma EncodeHead(s: string, done: set<char>)
    requires done <= SPECIALS && s != ""
    ensures Encode(s, done) != "" && Encode(s, done)[0] == if s[0] in done then '%' else s[0]
    ensures s[0] !in done ==> Encode(s, done)[1..] == Encode(s[1..], done)
  {
  }

  /** Encoding makes no escape out of a character it copies. */
  lemma EncodeStartsNoEscape(s: string, done: set<char>)
    requires done <= SPECIALS && s != "" && s[0] !in done
    ensures StartsEscape(Encode(s, done), SPECIALS) ==> StartsEscape(s, SPECIALS)
  {
    var e := Encode(s, done);
    if StartsEscape(e, SPECIALS) {
      NothingStartsInside(e, SPECIALS);
      EncodeHead(s, done);
      EncodeHead(s[1..], done);
      assert s[1] == e[1] && s[1..][1..] == s[2..];
      EncodeHead(s[2..], done);
      assert s[2] == e[2];
      assert s[..3] == e[..3];
    }
  }

  /** The decoder changes exactly the texts that contain an escape. */
  lemma {:induction false} DecodeFixedIff(s: string)
    ensures |Decode(s, SPECIALS)| <= |s|
    ensures Decode(s, SPECIALS) == s <==> !ContainsEscape(s, SPECIALS)
  {
    if s == "" {
      assert !StartsEscape(s, SPECIALS);
    } else if StartsEscape(s, SPECIALS) {
      DecodeFixedIff(s[3..]);
      assert s[0..] == s;
    } else {
      DecodeFixedIff(s[1..]);
      assert forall i | 0 <= i <= |s[1..]| :: s[1..][i..] == s[i + 1..];
      if i :| 0 <= i <= |s| && StartsEscape(s[i..], SPECIALS) {
        assert s[0..] == s && i > 0;
        assert s[1..][i - 1..] == s[i..];
      }
    }
  }

  /** Decoding undoes encoding exactly on the texts that contained no escape to begin with. */
  lemma RoundTripIff(s: string, done: set<char>)
    requires done <= SPECIALS
    ensures Decode(Encode(s, done), SPECIALS) == s <==> !ContainsEscape(s, SPECIALS)
  {
    DecodeOfEncode(s, done);
    DecodeFixedIff(s);
  }

  // ---------- Whole paths ----------

  /** f applied to every part. */
  function MapParts(parts: seq<string>, f: string -> string): (r: seq<string>)
    ensures |r| == |parts| && forall i | 0 <= i < |parts| :: r[i] == f(parts[i])
  {
    seq(|parts|, i requires 0 <= i < |parts| => f(parts[i]))
  }

  function EncodePart(part: string): string {
    Encode(part, SPECIALS)
  }

  function DecodePart(part: string): string {
    Decode(part, SPECIALS)
  }

  /** A path is encoded by encoding its parts: only the separators are spared, and the parts stay apart. */
  lemma {:induction false} SplitOfEncode(path: string)
    ensures Split(Encode(path, SPECIALS - {'/'}), '/') == MapParts(Split(path, '/'), EncodePart)
  {
    if path != "" {
      SplitOfEncode(path[1..]);
      var rest := Encode(path[1..], SPECIALS - {'/'});
      if path[0] == '/' {
        assert Encode(path, SPECIALS - {'/'}) == ['/'] + rest && (['/'] + rest)[1..] == rest;
        assert MapParts([""] + Split(path[1..], '/'), EncodePart) == [""] + MapParts(Split(path[1..], '/'), EncodePart);
      } else {
        EncodeFirstPart(path[0], Split(path[1..], '/'));
        SplitPrepend(if path[0] in SPECIALS then Escape(path[0]) else [path[0]], rest, '/');
      }
    }
  }

  lemma EncodeFirstPart(c: char, parts: seq<string>)
    requires parts != []
    ensures MapParts([[c] + parts[0]] + parts[1..], EncodePart) ==
            [(if c in SPECIALS then Escape(c) else [c]) + EncodePart(parts[0])] + MapParts(parts, EncodePart)[1..]
  {
    assert ([c] + parts[0])[1..] == parts[0];
  }

  /** Text without separators in front of a path goes into its first part. */
  lemma {:induction false} SplitPrepend(head: string, rest: string, sep: char)
    requires sep !in head
    ensures Split(head + rest, sep) == [head + Split(rest, sep)[0]] + Split(rest, sep)[1..]
  {
    if head == "" {
      var parts := Split(rest, sep);
      assert head + rest == rest && head + parts[0] == parts[0] && [parts[0]] + parts[1..] == parts;
    } else {
      assert head[0] in head && forall c | c in head[1..] :: c in head;
      SplitPrepend(head[1..], rest, sep);
      assert (head + rest)[1..] == head[1..] + rest;
      assert [head[0]] + (head[1..] + Split(rest, sep)[0]) == head + Split(rest, sep)[0];
    }
  }

  lemma JoinPrepend(head: string, parts: seq<string>, sep: char)
    requires parts != []
    ensures Join([head + parts[0]] + parts[1..], sep) == head + Join(parts, sep)
  {
    assert ([head + parts[0]] + parts[1..])[1..] == parts[1..];
  }

  /** Decoding the first part of a path that starts with text decoding to out decodes the rest of it separately. */
  lemma JoinStep(parts: seq<string>, rest: seq<string>, head: string, out: string)
    requires rest != [] && parts == [head + rest[0]] + rest[1..]
    requires DecodePart(head + rest[0]) == out + DecodePart(rest[0])
    ensures Join(MapParts(parts, DecodePart), '/') == out + Join(MapParts(rest, DecodePart), '/')
  {
    var mapped := MapParts(rest, DecodePart);
    assert MapParts(parts, DecodePart) == [out + mapped[0]] + mapped[1..];
    JoinPrepend(out, mapped, '/');
  }

  lemma PlainFirstPart(path: string)
    requires path != "" && path[0] != '/' && !StartsEscape(path, SPECIALS)
    ensures var rest := Split(path[1..], '/')[0]; DecodePart([path[0]] + rest) == [path[0]] + DecodePart(rest)
  {
    FirstPartIsPrefix(path);
    var first := [path[0]] + Split(path[1..], '/')[0];
    assert Split(path, '/')[0] == first;
    EscapeOfPrefix(first, path, SPECIALS);
    assert first[1..] == Split(path[1..], '/')[0];
  }

  /** A path is decoded by decoding its parts: escapes never reach across a separator. */
  lemma {:induction false} JoinOfDecode(path: string)
    ensures DecodedParts(path) == Decode(path, SPECIALS)
  {
    if path == "" {
    } else if StartsEscape(path, SPECIALS) {
      JoinOfDecode(path[3..]);
      JoinAtEscape(path);
    } else if path[0] == '/' {
      JoinOfDecode(path[1..]);
      JoinAtSeparator(path);
    } else {
      JoinOfDecode(path[1..]);
      JoinAtPlain(path);
    }
  }

  function DecodedParts(path: string): string {
    Join(MapParts(Split(path, '/'), DecodePart), '/')
  }

  lemma JoinAtEscape(path: string)
    requires StartsEscape(path, SPECIALS)
    ensures DecodedParts(path) == [DECODED[path[..3]]] + DecodedParts(path[3..])
  {
    NothingStartsInside(path, SPECIALS);
    var c := DECODED[path[..3]];
    SplitPrepend(Escape(c), path[3..], '/');
    DecodeOfEscape(c, Split(path[3..], '/')[0]);
    JoinStep(Split(path, '/'), Split(path[3..], '/'), Escape(c), [c]);
  }

  lemma JoinAtSeparator(path: string)
    requires path != "" && path[0] == '/'
    ensures DecodedParts(path) == ['/'] + DecodedParts(path[1..])
  {
    var mapped := MapParts(Split(path[1..], '/'), DecodePart);
    assert MapParts(Split(path, '/'), DecodePart) == [""] + mapped;
    assert ([""] + mapped)[1..] == mapped;
  }

  lemma JoinAtPlain(path: string)
    requires path != "" && path[0] != '/' && !StartsEscape(path, SPECIALS)
    ensures DecodedParts(path) == [path[0]] + DecodedParts(path[1..])
  {
    PlainFirstPart(path);
    JoinStep(Split(path, '/'), Split(path[1..], '/'), [path[0]], [path[0]]);
  }

  lemma {:induction false} FirstPartIsPrefix(path: string)
    ensures Split(path, '/')[0] <= path
  {
    if path != "" {
      FirstPartIsPrefix(path[1..]);
    }
  }

  // ---------- pathEncodeRules ----------

  datatype Location = Unknown | Local | Pipe | Blob | File | BlobFS | S3 | Benchmark | GCP | NoLocation {
    predicate IsRemote() {
      BlobFS? || Blob? || File? || S3? || GCP?
    }
  }

  datatype Mode = Encoding | Decoding | Plain

  /** Which table applies: the destination side encodes for Windows disks and Azure Files, and decodes when the
      source is one of them. */
  function ModeOf(from: Location, to: Location, disableAutoDecoding: bool, source: bool, windows: bool): Mode {
    if source then Plain
    else if (to.Local? && windows) || to.File? then Encoding
    else if ((from.Local? && windows) || from.File?) && !disableAutoDecoding then Decoding
    else Plain
  }

  function Recode(mode: Mode, part: string): string {
    match mode
    case Encoding => EncodePart(part)
    case Decoding => DecodePart(part)
    case Plain => part
  }

  function Respell(parts: seq<string>, mode: Mode, remote: bool, urlPathEscape: string -> string): (r: seq<string>)
    ensures |r| == |parts|
    ensures forall i | 0 <= i < |parts| ::
              r[i] == if remote then urlPathEscape(Recode(mode, parts[i])) else Recode(mode, parts[i])
  {
    seq(|parts|, i requires 0 <= i < |parts| =>
      if remote then urlPathEscape(Recode(mode, parts[i])) else Recode(mode, parts[i]))
  }

  /** The path rewritten part by part; remote paths are then passed through urlPathEscape, a library function. */
  function Rules(path: string, mode: Mode, remote: bool, urlPathEscape: string -> string): string {
    Join(Respell(Split(path, '/'), mode, remote, urlPathEscape), '/')
  }

  function PathFor(path: string, from: Location, to: Location, disableAutoDecoding: bool, source: bool, windows: bool,
                   urlPathEscape: string -> string): string {
    Rules(path, ModeOf(from, to, disableAutoDecoding, source, windows), (if source then from else to).IsRemote(),
          urlPathEscape)
  }

  method PathEncodeRules(path: string, from: Location, to: Location, disableAutoDecoding: bool, source: bool,
                         windows: bool, urlPathEscape: string -> string) returns (r: string)
    ensures r == PathFor(path, from, to, disableAutoDecoding, source, windows, urlPathEscape)
  {
    var loc := if source then from else to;
    var split := Split(path, '/');
    var pathParts := new string[|split|](i requires 0 <= i < |split| => split[i]);
    ghost var mode := ModeOf(from, to, disableAutoDecoding, source, windows);
    if (loc.Local? && !source && windows) || (!source && loc.File?) {
      EncodeParts(pathParts);
    } else if ((!source && from.Local? && windows) || (!source && from.File?)) && !disableAutoDecoding {
      DecodeParts(pathParts);
    }
    assert forall i | 0 <= i < |split| :: pathParts[i] == Recode(mode, split[i]);
    if loc.IsRemote() {
      EscapeForUrl(pathParts, urlPathEscape);
    }
    assert pathParts[..] == Respell(split, mode, loc.IsRemote(), urlPathEscape);
    r := Join(pathParts[..], '/');
  }

  method EscapeForUrl(parts: array<string>, urlPathEscape: string -> string)
    modifies parts
    ensures forall i | 0 <= i < parts.Length :: parts[i] == urlPathEscape(old(parts[i]))
  {
    for k := 0 to parts.Length
      invariant forall i | 0 <= i < parts.Length :: parts[i] == if i < k then urlPathEscape(old(parts[i])) else old(parts[i])
    {
      parts[k] := urlPathEscape(parts[k]);
    }
  }

  /** The nested loops over the table, in any order, and the parts, which are rewritten in place. */
  method EncodeParts(parts: array<string>)
    modifies parts
    ensures forall i | 0 <= i < parts.Length :: parts[i] == EncodePart(old(parts[i]))
  {
    var todo := SPECIALS;
    assert SPECIALS - todo == {};
    NothingToDo(parts[..]);
    while todo != {}
      invariant todo <= SPECIALS
      invariant forall i | 0 <= i < parts.Length :: parts[i] == Encode(old(parts[..])[i], SPECIALS - todo)
      decreases todo
    {
      var k :| k in todo;
      ghost var done := SPECIALS - todo;
      EncodeOne(parts, k, old(parts[..]), done);
      assert SPECIALS - (todo - {k}) == done + {k};
      todo := todo - {k};
    }
    assert SPECIALS - {} == SPECIALS;
  }

  /** The inner loop: one table entry over all parts. */
  method EncodeOne(parts: array<string>, k: char, ghost original: seq<string>, ghost done: set<char>)
    requires done <= SPECIALS && k in SPECIALS && k !in done && |original| == parts.Length
    requires forall i | 0 <= i < parts.Length :: parts[i] == Encode(original[i], done)
    modifies parts
    ensures forall i | 0 <= i < parts.Length :: parts[i] == Encode(original[i], done + {k})
  {
    for part := 0 to parts.Length
      invariant forall i | 0 <= i < parts.Length :: parts[i] == Encode(original[i], if i < part then done + {k} else done)
    {
      EncodePass(original[part], done, k);
      parts[part] := ReplaceAll(parts[part], [k], ENCODED[k]);
    }
  }

  method DecodeOne(parts: array<string>, encoded: string, c: char, ghost original: seq<string>, ghost done: set<char>)
    requires done <= SPECIALS && c in SPECIALS && c !in done && encoded == Escape(c) && |original| == parts.Length
    requires forall i | 0 <= i < parts.Length :: parts[i] == Decode(original[i], done)
    modifies parts
    ensures forall i | 0 <= i < parts.Length :: parts[i] == Decode(original[i], done + {c})
  {
    for k := 0 to parts.Length
      invariant forall i | 0 <= i < parts.Length :: parts[i] == Decode(original[i], if i < k then done + {c} else done)
    {
      DecodePass(original[k], done, c);
      parts[k] := ReplaceAll(parts[k], encoded, [c]);
    }
  }

  method DecodeParts(parts: array<string>)
    modifies parts
    ensures forall i | 0 <= i < parts.Length :: parts[i] == DecodePart(old(parts[i]))
  {
    var todo := DECODED.Keys;
    ghost var done: set<char> := {};
    TablesAreInverse();
    NothingToDo(parts[..]);
    while todo != {}
      invariant todo <= DECODED.Keys && done <= SPECIALS
      invariant forall e | e in DECODED :: e in todo <==> DECODED[e] !in done
      invariant forall i | 0 <= i < parts.Length :: parts[i] == Decode(old(parts[..])[i], done)
      decreases todo
    {
      var encoded :| encoded in todo;
      var c := DECODED[encoded];
      DecodeOne(parts, encoded, c, old(parts[..]), done);
      todo, done := todo - {encoded}, done + {c};
    }
    assert done == SPECIALS by {
      forall c | c in SPECIALS ensures c in done {
        assert ENCODED[c] in DECODED;
      }
    }
  }

  lemma NothingToDo(parts: seq<string>)
    ensures forall i | 0 <= i < |parts| :: Encode(parts[i], {}) == parts[i] && Decode(parts[i], {}) == parts[i]
  {
    forall i | 0 <= i < |parts| ensures Encode(parts[i], {}) == parts[i] && Decode(parts[i], {}) == parts[i] {
      EmptyTable(parts[i]);
    }
  }

  lemma {:induction false} EmptyTable(s: string)
    ensures Encode(s, {}) == s && Decode(s, {}) == s
  {
    if s != "" {
      EmptyTable(s[1..]);
    }
  }

  /** A download to a Windows disk writes the whole path with the nine characters but the separator escaped. */
  lemma DownloadedName(path: string, urlPathEscape: string -> string)
    ensures Rules(path, Encoding, false, urlPathEscape) == Encode(path, SPECIALS - {'/'})
  {
    SplitOfEncode(path);
    JoinOfSplit(Encode(path, SPECIALS - {'/'}), '/');
    assert Respell(Split(path, '/'), Encoding, false, urlPathEscape) == MapParts(Split(path, '/'), EncodePart);
  }

  /** Decoding to a place that needs no URL escaping is the single pass over the whole path. */
  lemma DecodedName(path: string, urlPathEscape: string -> string)
    ensures Rules(path, Decoding, false, urlPathEscape) == Decode(path, SPECIALS)
  {
    JoinOfDecode(path);
    assert Respell(Split(path, '/'), Decoding, false, urlPathEscape) == MapParts(Split(path, '/'), DecodePart);
  }

  /** Before any URL escaping, the way there and back is the identity exactly on paths that contain no escape. */
  lemma PathRoundTripIff(path: string, urlPathEscape: string -> string)
    ensures Rules(Rules(path, Encoding, false, urlPathEscape), Decoding, false, urlPathEscape) == path
            <==> !ContainsEscape(path, SPECIALS)
  {
    DownloadedName(path, urlPathEscape);
    DecodedName(Encode(path, SPECIALS - {'/'}), urlPathEscape);
    RoundTripIff(path, SPECIALS - {'/'});
  }

  /** A file whose remote name is "%3C" comes back as "<". */
  lemma RoundTripCanFail(urlPathEscape: string -> string)
    ensures Rules(Rules("%3C", Encoding, false, urlPathEscape), Decoding, false, urlPathEscape) == "<"
  {
    var name := "%3C";
    DownloadedName(name, urlPathEscape);
    DecodedName(name, urlPathEscape);
    EscapeOfLess();
    EncodeCopiesEscape(name, SPECIALS - {'/'});
    assert Encode(name, SPECIALS - {'/'}) == name;
  }

  lemma EscapeOfLess()
    ensures "%3C"[..3] == "%3C" && "%3C"[3..] == "" && StartsEscape("%3C", SPECIALS)
    ensures Decode("%3C", SPECIALS) == "<"
  {
    assert "%3C"[..3] == "%3C" && "%3C"[3..] == "";
    assert ENCODED['<'] in DECODED;
  }

  /** What is assumed of url.PathEscape: it loses nothing and escapes the separator. */
  ghost predicate Escapes(urlPathEscape: string -> string) {
    && (forall a, b | urlPathEscape(a) == urlPathEscape(b) :: a == b)
    && forall a :: '/' !in urlPathEscape(a)
  }

  /** Uploading a downloaded file gives it back the name it had, in the remote spelling that the original path would
      have, exactly when that name contained no escape. */
  lemma UploadRestoresNameIff(path: string, remote: bool, urlPathEscape: string -> string)
    requires Escapes(urlPathEscape)
    ensures (Rules(Rules(path, Encoding, false, urlPathEscape), Decoding, remote, urlPathEscape)
             == Rules(path, Plain, remote, urlPathEscape))
            <==> !ContainsEscape(path, SPECIALS)
  {
    PathRoundTripIff(path, urlPathEscape);
    DownloadedName(path, urlPathEscape);
    SplitOfEncode(path);
    JoinOfSplit(path, '/');
    var parts := Split(path, '/');
    var there := MapParts(parts, EncodePart);
    assert Respell(parts, Plain, false, urlPathEscape) == parts;
    SameSpellingIff(there, Decoding, parts, Plain, urlPathEscape);
    if !ContainsEscape(path, SPECIALS) {
      PartsSurvive(path);
      assert MapParts(there, DecodePart) == parts;
      assert Respell(there, Decoding, false, urlPathEscape) == parts;
    }
  }

  lemma PartsSurvive(path: string)
    requires !ContainsEscape(path, SPECIALS)
    ensures MapParts(MapParts(Split(path, '/'), EncodePart), DecodePart) == Split(path, '/')
  {
    var parts := Split(path, '/');
    forall i | 0 <= i < |parts| ensures DecodePart(EncodePart(parts[i])) == parts[i] {
      PartHasNoEscape(path, i);
      RoundTripIff(parts[i], SPECIALS);
    }
  }

  /** Remote spellings agree exactly when the parts do. */
  lemma SameSpellingIff(a: seq<string>, modeA: Mode, b: seq<string>, modeB: Mode, urlPathEscape: string -> string)
    requires Escapes(urlPathEscape) && |a| == |b| > 0
    ensures Join(Respell(a, modeA, true, urlPathEscape), '/') == Join(Respell(b, modeB, true, urlPathEscape), '/')
            <==> Respell(a, modeA, false, urlPathEscape) == Respell(b, modeB, false, urlPathEscape)
  {
    var ra, rb := Respell(a, modeA, true, urlPathEscape), Respell(b, modeB, true, urlPathEscape);
    SplitOfJoin(ra, '/');
    SplitOfJoin(rb, '/');
    if ra == rb {
      forall i | 0 <= i < |a| ensures Recode(modeA, a[i]) == Recode(modeB, b[i]) {
        assert ra[i] == rb[i];
      }
      assert Respell(a, modeA, false, urlPathEscape) == Respell(b, modeB, false, urlPathEscape);
    }
    if Respell(a, modeA, false, urlPathEscape) == Respell(b, modeB, false, urlPathEscape) {
      forall i | 0 <= i < |a| ensures Recode(modeA, a[i]) == Recode(modeB, b[i]) {
        assert Respell(a, modeA, false, urlPathEscape)[i] == Respell(b, modeB, false, urlPathEscape)[i];
      }
      assert ra == rb;
    }
  }

  /** The parts of a path are pieces of it. */
  lemma {:induction false} PartIsPiece(path: string, i: nat) returns (before: string, after: string)
    requires i < |Split(path, '/')|
    ensures path == before + Split(path, '/')[i] + after
    ensures i == 0 ==> before == ""
  {
    before, after := "", "";
    if path != "" {
      if path[0] == '/' {
        if i > 0 {
          before, after := PartIsPiece(path[1..], i - 1);
          before := "/" + before;
        } else {
          after := path;
        }
      } else {
        before, after := PartIsPiece(path[1..], i);
        before := if i > 0 then [path[0]] + before else before;
      }
    }
  }

  lemma PieceHasEscape(before: string, piece: string, after: string, done: set<char>)
    ensures ContainsEscape(piece, done) ==> ContainsEscape(before + piece + after, done)
  {
    var path := before + piece + after;
    if k :| 0 <= k <= |piece| && StartsEscape(piece[k..], done) {
      assert path[|before| + k..] == piece[k..] + after;
      EscapeOfPrefix(piece[k..], path[|before| + k..], done);
    }
  }

  lemma PartHasNoEscape(path: string, i: nat)
    requires i < |Split(path, '/')| && !ContainsEscape(path, SPECIALS)
    ensures !ContainsEscape(Split(path, '/')[i], SPECIALS)
  {
    var before, after := PartIsPiece(path, i);
    PieceHasEscape(before, Split(path, '/')[i], after, SPECIALS);
  }

  // ---------- Routes ----------

  /** The remote spelling of a path: every part passed through urlPathEscape. */
  function UrlSpelling(path: string, urlPathEscape: string -> string): string {
    Join(MapParts(Split(path, '/'), urlPathEscape), '/')
  }

  function SameText(s: string): string {
    s
  }

  lemma PlainRules(path: string, remote: bool, urlPathEscape: string -> string)
    ensures Rules(path, Plain, remote, urlPathEscape) == if remote then UrlSpelling(path, urlPathEscape) else path
  {
    var parts := Split(path, '/');
    JoinOfSplit(path, '/');
    assert Respell(parts, Plain, remote, urlPathEscape) == if remote then MapParts(parts, urlPathEscape) else parts;
  }

  /** On the source side a path only gets its remote spelling, at the remote locations. */
  lemma SourcePath(path: string, from: Location, to: Location, disableAutoDecoding: bool, windows: bool,
                   urlPathEscape: string -> string)
    ensures PathFor(path, from, to, disableAutoDecoding, true, windows, urlPathEscape) ==
            if from == Blob || from == BlobFS || from == Location.File || from == S3 || from == GCP
            then UrlSpelling(path, urlPathEscape) else path
  {
    PlainRules(path, from.IsRemote(), urlPathEscape);
  }

  /** The same holds of the destination side when the destination is neither a Windows disk nor Azure Files, and the
      source is not either or decoding is disabled. */
  lemma OrdinaryDestinationPath(path: string, from: Location, to: Location, disableAutoDecoding: bool, windows: bool,
                                urlPathEscape: string -> string)
    requires to != Location.File && !(to == Local && windows)
    requires disableAutoDecoding || (from != Location.File && !(from == Local && windows))
    ensures PathFor(path, from, to, disableAutoDecoding, false, windows, urlPathEscape) ==
            if to == Blob || to == BlobFS || to == S3 || to == GCP then UrlSpelling(path, urlPathEscape) else path
  {
    PlainRules(path, to.IsRemote(), urlPathEscape);
  }

  lemma {:induction false} EncodedIsClean(s: string, done: set<char>)
    requires done <= SPECIALS
    ensures forall c | c in Encode(s, done) :: c !in done
  {
    if s != "" {
      EncodedIsClean(s[1..], done);
      var head := if s[0] in done then Escape(s[0]) else [s[0]];
      assert forall c | c in head :: c !in done;
      assert Encode(s, done) == head + Encode(s[1..], done);
    }
  }

  /** On a Windows disk a path has none of the characters that Windows forbids but its separators. */
  lemma WindowsPathIsLegal(path: string, from: Location, disableAutoDecoding: bool, urlPathEscape: string -> string)
    ensures forall c | c in PathFor(path, from, Local, disableAutoDecoding, false, true, urlPathEscape) ::
              c != '<' && c != '>' && c != '\\' && c != ':' && c != '"' && c != '|' && c != '?' && c != '*'
  {
    DownloadedName(path, urlPathEscape);
    EncodedIsClean(path, SPECIALS - {'/'});
  }

  /** The parts of a path at Azure Files, before the URL escape, have none of the nine characters. */
  lemma FilesPathIsLegal(path: string, from: Location, disableAutoDecoding: bool, windows: bool,
                         urlPathEscape: string -> string) returns (parts: seq<string>)
    ensures PathFor(path, from, Location.File, disableAutoDecoding, false, windows, urlPathEscape) ==
            Join(MapParts(parts, urlPathEscape), '/')
    ensures |parts| == |Split(path, '/')|
    ensures forall i, c | 0 <= i < |parts| && c in parts[i] :: c !in "<>\\/:\"|?*"
  {
    parts := MapParts(Split(path, '/'), EncodePart);
    assert Respell(Split(path, '/'), Encoding, true, urlPathEscape) == MapParts(parts, urlPathEscape);
    forall i, c | 0 <= i < |parts| && c in parts[i] ensures c !in "<>\\/:\"|?*" {
      EncodedIsClean(Split(path, '/')[i], SPECIALS);
      EscapesAreHex(c);
      TablesAreInverse();
    }
  }

  /** A remote object downloaded to a Windows disk and uploaded again gets the remote spelling of its first name exactly
      when that contained no escape. Azure Files, which encodes for itself, is not one of the remote locations here. */
  lemma WindowsRoundTripIff(path: string, remote: Location, back: Location, disableAutoDecoding: bool,
                            urlPathEscape: string -> string)
    requires Escapes(urlPathEscape)
    requires back == Blob || back == BlobFS || back == S3 || back == GCP
    ensures var name := PathFor(path, remote, Local, disableAutoDecoding, false, true, urlPathEscape);
            PathFor(name, Local, back, false, false, true, urlPathEscape) == UrlSpelling(path, urlPathEscape)
            <==> !ContainsEscape(path, SPECIALS)
  {
    UploadRestoresNameIff(path, true, urlPathEscape);
    PlainRules(path, true, urlPathEscape);
  }

  /** An object copied to Azure Files, where its name is what is spelled before the URL escape, and downloaded from there
      to a disk that is not a Windows disk gets its first name exactly when that contained no escape. */
  lemma FilesRoundTripIff(path: string, from: Location, disableAutoDecoding: bool, windows: bool,
                          urlPathEscape: string -> string)
    ensures var name := PathFor(path, from, Location.File, disableAutoDecoding, false, windows, SameText);
            PathFor(name, Location.File, Local, false, false, false, urlPathEscape) == path
            <==> !ContainsEscape(path, SPECIALS)
  {
    var parts := Split(path, '/');
    assert Respell(parts, Encoding, true, SameText) == Respell(parts, Encoding, false, urlPathEscape);
    PathRoundTripIff(path, urlPathEscape);
  }
}
