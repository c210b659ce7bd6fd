/** The Range header arithmetic of azbfs/zc_util_validate.go, in 64-bit two's complement. */
module HttpRange {
  import opened Decimal
  import opened Int64

  const COUNT_TO_END := 0

  /** The three ways out of httpRange.pointers: no header, a header, a panic. */
  datatype Header = NoRange | Range(text: string) | Panic

  function ToRange(offset: int, count: int): string {
    "bytes=" + FormatInt(offset) + "-" +
    (if count != COUNT_TO_END then FormatInt(Wrap64(offset + count - 1)) else "")
  }

  function Pointers(offset: int, count: int): Header {
    if offset == 0 && count == COUNT_TO_END then NoRange
    else if offset < 0 then Panic
    else if count <= 0 && count != COUNT_TO_END then Panic
    else Range(ToRange(offset, count))
  }

  /** What a server reads in a byte-range specifier (section 2.1 of RFC 7233). */
  datatype ByteRange = Whole | From(first: nat) | Between(first: nat, last: nat) | Malformed

  /** Splits "digits-rest" at the first non-digit. */
  function DigitRun(s: string): (k: nat)
    ensures k <= |s| && AllDigits(s[..k])
    ensures k < |s| ==> !IsDigit(s[k])
  {
    if s == "" || !IsDigit(s[0]) then 0
    else
      var k := DigitRun(s[1..]) + 1;
      assert forall i | 1 <= i < k :: s[i] == s[1..][..k - 1][i - 1];
      k
  }

  function ReadSpecifier(s: string): ByteRange {
    var k := DigitRun(s);
    if k == 0 || k == |s| || s[k] != '-' then Malformed
    else if k + 1 == |s| then From(Value(s[..k]))
    else if !AllDigits(s[k + 1..]) then Malformed
    else if Value(s[k + 1..]) < Value(s[..k]) then Malformed
    else Between(Value(s[..k]), Value(s[k + 1..]))
  }

  function ReadHeader(h: Header): ByteRange
    requires !h.Panic?
  {
    match h
    case NoRange => Whole
    case Range(text) => if "bytes=" <= text then ReadSpecifier(text[6..]) else Malformed
  }

  lemma {:induction false} DigitRunOfConcat(digits: string, rest: string)
    requires AllDigits(digits) && rest != "" && !IsDigit(rest[0])
    ensures DigitRun(digits + rest) == |digits|
  {
    if digits == "" {
      assert digits + rest == rest;
    } else {
      DigitRunOfConcat(digits[1..], rest);
      assert (digits + rest)[1..] == digits[1..] + rest;
    }
  }

  /** How a server reads a specifier whose digits are followed by a hyphen. */
  lemma ReadOfSpecifier(digits: string, last: string)
    requires digits != "" && AllDigits(digits)
    ensures ReadSpecifier(digits + ("-" + last)) ==
            if last == "" then From(Value(digits))
            else if !AllDigits(last) || Value(last) < Value(digits) then Malformed
            else Between(Value(digits), Value(last))
  {
    var s := digits + ("-" + last);
    DigitRunOfConcat(digits, "-" + last);
    assert s[..|digits|] == digits && s[|digits|] == '-' && s[|digits| + 1..] == last;
  }

  /** How a server reads "bytes=first-last", whatever text follows the hyphen. */
  lemma ReadOfRange(first: nat, last: string)
    ensures ReadHeader(Range("bytes=" + Format(first) + "-" + last)) ==
            if last == "" then From(first)
            else if !AllDigits(last) || Value(last) < first then Malformed
            else Between(first, Value(last))
  {
    var text := "bytes=" + Format(first) + "-" + last;
    assert text == "bytes=" + (Format(first) + ("-" + last));
    assert text[6..] == Format(first) + ("-" + last);
    ReadOfSpecifier(Format(first), last);
    ValueOfFormat(first);
  }

  /** The header of a well-formed request that does not overflow denotes exactly offset..offset+count-1,
      or offset to the end of the resource when count is CountToEnd. */
  lemma HeaderDenotesInterval(offset: nat, count: nat)
    requires count != COUNT_TO_END ==> offset + count - 1 < TWO_63
    ensures !Pointers(offset, count).Panic?
    ensures ReadHeader(Pointers(offset, count)) ==
            if count != COUNT_TO_END then Between(offset, offset + count - 1)
            else if offset == 0 then Whole else From(offset)
  {
    if count == COUNT_TO_END {
      ReadOfRange(offset, "");
    } else {
      ReadOfRange(offset, Format(offset + count - 1));
      ValueOfFormat(offset + count - 1);
    }
  }

  /** The header of four bytes from offset 5 on, and of all from there on. */
  lemma HeaderOfExample()
    ensures Pointers(5, 4) == Range("bytes=5-8") && Pointers(5, 0) == Range("bytes=5-") && Pointers(0, 0) == NoRange
    ensures Pointers(-1, 4) == Panic && Pointers(5, -1) == Panic
  {
    assert FormatInt(5) == "5" && FormatInt(8) == "8";
  }

  /** When offset+count-1 does not fit in an int64 the header has a negative last byte and no server can read it:
      the overflow condition of HeaderDenotesInterval is exact for every int64 offset and count. */
  lemma OverflowingHeaderIsMalformed(offset: nat, count: nat)
    requires offset < TWO_63 && 0 < count < TWO_63
    ensures ReadHeader(Pointers(offset, count)).Malformed? <==> offset + count - 1 >= TWO_63
  {
    if offset + count - 1 < TWO_63 {
      HeaderDenotesInterval(offset, count);
    } else {
      var last := FormatInt(Wrap64(offset + count - 1));
      assert last[0] == '-' by {
        WrapPastTop(offset + count - 1);
      }
      ReadOfRange(offset, last);
    }
  }
}
