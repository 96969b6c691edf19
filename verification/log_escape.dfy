/**
 The string printer of the log (xprint_escape in src/intercept_log.c) with a decoder for what it prints.
 */
module LogEscape {
  import opened Bytes
  import opened Encoding
  import opened LogNumbers

  /** isprint in the C locale. */
  predicate IsPrint(b: Byte) {
    0x20 <= b <= 0x7e
  }

  /** The letter after the backslash for the control characters that have one. */
  function ShortEscape(b: Byte): Option<char> {
    match b
    case 10 => Some('n')
    case 9 => Some('t')
    case 13 => Some('r')
    case 7 => Some('a')
    case 8 => Some('b')
    case 12 => Some('f')
    case 11 => Some('v')
    case 0 => Some('0')
    case _ => None
  }

  /** How one byte is printed. */
  ghost function EscapeByte(b: Byte): string {
    if b == '"' as int then ['\\', '"']
    else if b == '\\' as int then ['\\', '\\']
    else if IsPrint(b) then [b as char]
    else if ShortEscape(b).Some? then ['\\', ShortEscape(b).value]
    else ['\\', 'x'] + Digits(b, 16, 2)
  }

  ghost function Escape(src: seq<Byte>): string {
    if |src| == 0 then [] else Escape(src[..|src| - 1]) + EscapeByte(src[|src| - 1])
  }

  // ----- the decoder -----

  /** The control character a letter stands for. */
  ghost function FromLetter(c: char): Option<Byte> {
    if c == 'n' then Some(10) else if c == 't' then Some(9) else if c == 'r' then Some(13)
    else if c == 'a' then Some(7) else if c == 'b' then Some(8) else if c == 'f' then Some(12)
    else if c == 'v' then Some(11) else if c == '0' then Some(0)
    else if c == '"' || c == '\\' then Some(c as int)
    else None
  }

  ghost function Prepend(bytes: seq<Byte>, rest: Option<seq<Byte>>): Option<seq<Byte>> {
    if rest.None? then None else Some(bytes + rest.value)
  }

  /** Reads escapes up to the closing quote. */
  ghost function Decode(text: string): Option<seq<Byte>> {
    if |text| == 0 then None
    else if text[0] == '"' then Some([])
    else if text[0] != '\\' then if text[0] as int < 256 then Prepend([text[0] as int], Decode(text[1..])) else None
    else if |text| > 1 && FromLetter(text[1]).Some? then Prepend([FromLetter(text[1]).value], Decode(text[2..]))
    else if |text| > 3 && text[1] == 'x' && 0 <= Parse(text[2..4], 16) < 256 then
      Prepend([Parse(text[2..4], 16)], Decode(text[4..]))
    else None
  }

  /** A byte in hexadecimal takes two digits. */
  lemma HexByte(b: Byte)
    ensures |Digits(b, 16, 2)| == 2 && Parse(Digits(b, 16, 2), 16) == b
  {
    hide Digits, Parse;
    DigitsParse(b, 16, 2);
    DigitsLength(b, 16, 2, 2);
    DigitsLength(b, 16, 2, 1);
    PowStep(16, 2);
    PowStep(16, 1);
  }

  lemma DecodeByte(b: Byte, tail: string)
    ensures Decode(EscapeByte(b) + tail) == Prepend([b], Decode(tail))
    ensures 1 <= |EscapeByte(b)| <= 4
  {
    hide Digits, Parse;
    HexByte(b);
    var text := EscapeByte(b) + tail;
    assert text[|EscapeByte(b)|..] == tail;
    if |EscapeByte(b)| == 4 {
      assert text[2..4] == Digits(b, 16, 2);
    }
  }

  ghost predicate Printable(s: string) {
    forall i :: 0 <= i < |s| ==> ' ' <= s[i] <= '~'
  }

  /** A byte that can be printed is, the quote and the backslash after a backslash; nothing else reaches the log. */
  lemma EscapedIsPrintable(b: Byte)
    ensures Printable(EscapeByte(b))
    ensures 0x20 <= b <= 0x7e && b != 0x22 && b != 0x5c <==> EscapeByte(b) == [b as char]
    ensures b == 0x22 || b == 0x5c ==> EscapeByte(b) == ['\\', b as char]
    ensures b in {0, 7, 8, 9, 10, 11, 12, 13} ==> |EscapeByte(b)| == 2 && EscapeByte(b)[0] == '\\'
    ensures !(0x20 <= b <= 0x7e) && b !in {0, 7, 8, 9, 10, 11, 12, 13} ==>
      |EscapeByte(b)| == 4 && EscapeByte(b)[..2] == "\\x"
  {
    hide Digits;
    HexByte(b);
    DigitsAreDigits(b, 16, 2);
  }

  lemma {:induction false} EscapeIsPrintable(src: seq<Byte>)
    ensures Printable(Escape(src))
  {
    hide EscapeByte;
    if |src| > 0 {
      EscapeIsPrintable(src[..|src| - 1]);
      EscapedIsPrintable(src[|src| - 1]);
    }
  }

  /** Decoding undoes escaping, whatever follows. */
  lemma {:induction false} DecodeEscape(src: seq<Byte>, tail: string)
    ensures Decode(Escape(src) + tail) == Prepend(src, Decode(tail))
  {
    hide Decode, EscapeByte;
    if |src| == 0 {
      assert Escape(src) + tail == tail;
      if Decode(tail).Some? {
        assert src + Decode(tail).value == Decode(tail).value;
      }
    } else {
      var front, b := src[..|src| - 1], src[|src| - 1];
      assert Escape(src) + tail == Escape(front) + (EscapeByte(b) + tail);
      DecodeEscape(front, EscapeByte(b) + tail);
      DecodeByte(b, tail);
      if Decode(tail).Some? {
        assert src + Decode(tail).value == front + ([b] + Decode(tail).value);
      }
    }
  }

  // ----- what xprint_escape prints -----

  const DOTS: seq<Byte> := [0x2e, 0x2e, 0x2e]

  /** The length of the first k bytes of src when escaped. */
  ghost function Length(src: seq<Byte>, k: nat): nat
    requires k <= |src|
  {
    |Escape(src[..k])|
  }

  /** The loop stops at the first byte that would start at or after dst_end, or at the end of src. */
  ghost function Taken(src: seq<Byte>, size: nat, i: nat): (k: nat)
    requires i <= |src|
    ensures i <= k <= |src|
    decreases |src| - i
  {
    if i < |src| && 1 + Length(src, i) < size - 5 then Taken(src, size, i + 1) else i
  }

  ghost predicate Truncated(src: seq<Byte>, size: nat) {
    Taken(src, size, 0) < |src|
  }

  ghost function Text(src: seq<Byte>, size: nat): string {
    ['"'] + Escape(src[..Taken(src, size, 0)]) + (if Truncated(src, size) then "..." else "") + ['"']
  }

  /** The text decodes to the bytes taken, followed by three dots if some were left. */
  lemma TextDecodes(src: seq<Byte>, size: nat)
    ensures |Text(src, size)| >= 2
    ensures Decode(Text(src, size)[1..])
         == Some(src[..Taken(src, size, 0)] + if Truncated(src, size) then DOTS else [])
    ensures !Truncated(src, size) ==> Decode(Text(src, size)[1..]) == Some(src)
  {
    hide Escape, EscapeByte;
    var taken := src[..Taken(src, size, 0)];
    var tail := if Truncated(src, size) then "...\"" else "\"";
    assert Text(src, size)[1..] == Escape(taken) + tail;
    assert Decode(tail) == Some(if Truncated(src, size) then DOTS else []) by {
      DecodeTail(Truncated(src, size));
    }
    hide Decode;
    DecodeEscape(taken, tail);
    if !Truncated(src, size) {
      assert taken + [] == taken == src;
    }
  }

  /** Whatever the bytes, the log receives printable ASCII characters only. */
  lemma TextIsPrintable(src: seq<Byte>, size: nat)
    ensures Printable(Text(src, size))
  {
    hide Escape, Taken;
    EscapeIsPrintable(src[..Taken(src, size, 0)]);
  }

  lemma DecodeTail(dots: bool)
    ensures Decode(if dots then "...\"" else "\"") == Some(if dots then DOTS else [])
  {
    assert Decode("\"") == Some([]);
    if dots {
      assert EscapeByte(0x2e) == ".";
      DecodeByte(0x2e, "\"");
      DecodeByte(0x2e, "." + "\"");
      DecodeByte(0x2e, "." + ("." + "\""));
      assert "...\"" == "." + ("." + ("." + "\""));
      var dot: seq<Byte> := [0x2e];
      assert dot + (dot + (dot + [])) == DOTS;
    }
  }

  // ----- how much is written -----

  lemma LengthStep(src: seq<Byte>, k: nat)
    requires k < |src|
    ensures Length(src, k + 1) == Length(src, k) + |EscapeByte(src[k])|
    ensures Length(src, k) < Length(src, k + 1) <= Length(src, k) + 4
  {
    assert src[..k + 1][..k] == src[..k];
    DecodeByte(src[k], []);
  }

  lemma {:induction false} LengthIncreases(src: seq<Byte>, i: nat, j: nat)
    requires i < j <= |src|
    ensures Length(src, i) < Length(src, j)
  {
    hide Length;
    LengthStep(src, j - 1);
    if i < j - 1 {
      LengthIncreases(src, i, j - 1);
    }
  }

  /** Where the loop stops, told by lengths alone. */
  lemma {:induction false} TakenMeaning(src: seq<Byte>, size: nat, i: nat)
    requires i <= |src| && (i > 0 ==> 1 + Length(src, i - 1) < size - 5)
    ensures var k := Taken(src, size, i);
      && (k > 0 ==> 1 + Length(src, k - 1) < size - 5)
      && (k < |src| ==> 1 + Length(src, k) >= size - 5)
    decreases |src| - i
  {
    hide Length;
    if i < |src| && 1 + Length(src, i) < size - 5 {
      TakenMeaning(src, size, i + 1);
    }
  }

  /** The last byte taken may start just before dst_end, so the text can pass dst_size, by no more than two. */
  lemma TextBound(src: seq<Byte>, size: nat)
    ensures |Text(src, size)| <= if size > 3 then size + 2 else 5
  {
    hide Length, Escape, Taken;
    var k := Taken(src, size, 0);
    TakenMeaning(src, size, 0);
    assert |Text(src, size)| == Length(src, k) + 2 + if k < |src| then 3 else 0 by { TextLength(src, size); }
    if k > 0 {
      LengthStep(src, k - 1);
    } else {
      assert Length(src, 0) == 0 by { LengthZero(src); }
    }
  }

  lemma LengthZero(src: seq<Byte>)
    ensures Length(src, 0) == 0
  {
  }

  lemma TextLength(src: seq<Byte>, size: nat)
    ensures |Text(src, size)| == Length(src, Taken(src, size, 0)) + 2 + if Truncated(src, size) then 3 else 0
  {
  }

  /** Some byte to escape starts or would start exactly at dst_end. */
  ghost predicate EndsOnLimit(src: seq<Byte>, size: nat) {
    exists k :: 0 <= k < |src| && 1 + Length(src, k) == size - 5
  }

  /** All bytes start before dst_end. */
  ghost predicate AllStartBefore(src: seq<Byte>, size: nat) {
    |src| == 0 || 1 + Length(src, |src| - 1) < size - 5
  }

  lemma TruncatedIff(src: seq<Byte>, size: nat)
    ensures Truncated(src, size) <==> !AllStartBefore(src, size)
  {
    hide Length, Taken;
    var k := Taken(src, size, 0);
    TakenMeaning(src, size, 0);
    if k < |src| && k < |src| - 1 {
      LengthIncreases(src, k, |src| - 1);
    }
  }

  /** When the text and its NUL stay within dst_size characters, exactly. */
  lemma StaysWithinIff(src: seq<Byte>, size: nat)
    ensures |Text(src, size)| + 1 <= size
       <==> EndsOnLimit(src, size) || (AllStartBefore(src, size) && Length(src, |src|) + 3 <= size)
  {
    hide Length, Taken, Text, AllStartBefore, Escape;
    var k := Taken(src, size, 0);
    TakenMeaning(src, size, 0);
    TextLength(src, size);
    TruncatedIff(src, size);
    if EndsOnLimit(src, size) {
      var j :| 0 <= j < |src| && 1 + Length(src, j) == size - 5;
      if j < k - 1 {
        LengthIncreases(src, j, k - 1);
      } else if k < j {
        LengthIncreases(src, k, j);
      }
    }
  }

  /** Eight characters are asked for and ten are written. */
  lemma WritesPastDstSize()
    ensures |Text([1, 1], 8)| + 1 == 10
  {
    hide Digits;
    HexByte(1);
    var src: seq<Byte> := [1, 1];
    LengthZero(src);
    LengthStep(src, 0);
    assert Taken(src, 8, 0) == 1;
    TextLength(src, 8);
  }

  // ----- the printer -----

  /** The bytes before the first NUL. */
  ghost function UpToNul(memory: seq<Byte>): seq<Byte> {
    if |memory| == 0 || memory[0] == 0 then [] else [memory[0]] + UpToNul(memory[1..])
  }

  lemma {:induction false} UpToNulMeaning(memory: seq<Byte>)
    requires 0 in memory
    ensures var n := |UpToNul(memory)|; n < |memory| && memory[n] == 0 && memory[..n] == UpToNul(memory)
    ensures 0 !in UpToNul(memory)
  {
    if memory[0] != 0 {
      UpToNulMeaning(memory[1..]);
    }
  }

  /** print_cstr: the string and its NUL. */
  method PrintCstr(dst: array<char>, at: nat, text: string) returns (end: nat)
    requires at + |text| < dst.Length
    modifies dst
    ensures end == at + |text| && dst[end] == '\0'
    ensures Printed(old(dst[..]), dst[..], at, text)
  {
    ghost var before := dst[..];
    end := at;
    while end < at + |text|
      invariant at <= end <= at + |text|
      invariant forall i :: at <= i < end ==> dst[i] == text[i - at]
      invariant forall i :: 0 <= i < dst.Length && !(at <= i < end) ==> dst[i] == before[i]
    {
      dst[end] := text[end - at];
      end := end + 1;
    }
    dst[end] := '\0';
    assert dst[at..end] == text;
    assert dst[..][..at] == before[..at];
  }

  /** The two digits after the backslash and the x. */
  method PrintHex(dst: array<char>, at: nat, b: Byte, ghost before: seq<char>) returns (end: nat)
    requires at + 4 <= dst.Length && Printed(before, dst[..], at, ['\\', 'x'])
    modifies dst
    ensures end == at + |['\\', 'x'] + Digits(b, 16, 2)|
    ensures Printed(before, dst[..], at, ['\\', 'x'] + Digits(b, 16, 2))
  {
    hide Digits, Fits, Printed, Parse, Pow;
    HexByte(b);
    FitsIff(16);
    ghost var middle := dst[..];
    end := PrintNumber(dst, at + 2, b, 16, 2);
    PrintedAfter(before, middle, dst[..], at, ['\\', 'x'], Digits(b, 16, 2));
  }

  /** One round of the loop. */
  method PrintByte(dst: array<char>, at: nat, b: Byte) returns (end: nat)
    requires at + |EscapeByte(b)| <= dst.Length
    modifies dst
    ensures end == at + |EscapeByte(b)|
    ensures Printed(old(dst[..]), dst[..], at, EscapeByte(b))
  {
    hide Digits, Fits;
    ghost var before := dst[..];
    if b == '"' as int || b == '\\' as int {
      dst[at] := '\\';
      dst[at + 1] := b as char;
      end := at + 2;
    } else if IsPrint(b) {
      dst[at] := b as char;
      end := at + 1;
    } else {
      HexByte(b);
      dst[at] := '\\';
      if ShortEscape(b).Some? {
        dst[at + 1] := ShortEscape(b).value;
        end := at + 2;
      } else {
        dst[at + 1] := 'x';
        end := PrintHex(dst, at, b, before);
      }
    }
  }

  /** The bytes xprint_escape is asked to print: up to the NUL, or src_size of them. */
  ghost function Source(memory: seq<Byte>, zeroTerm: bool, srcSize: nat): seq<Byte>
    requires if zeroTerm then 0 in memory else srcSize <= |memory|
  {
    if zeroTerm then UpToNul(memory) else memory[..srcSize]
  }

  /**
   The loop of xprint_escape, from the opening quote on: prints the bytes that start before dst_end.
   `taken` counts them, and `left` says whether the source goes on.
   */
  method PrintBytes(dst: array<char>, at: nat, memory: seq<Byte>, dstSize: nat, zeroTerm: bool, srcSize: nat)
    returns (end: nat, left: bool)
    requires if zeroTerm then 0 in memory else srcSize <= |memory|
    requires at + |Text(Source(memory, zeroTerm, srcSize), dstSize)| < dst.Length
    modifies dst
    ensures var src := Source(memory, zeroTerm, srcSize);
      && Printed(old(dst[..]), dst[..], at, ['"'] + Escape(src[..Taken(src, dstSize, 0)]))
      && end == at + 1 + Length(src, Taken(src, dstSize, 0))
      && left == Truncated(src, dstSize)
  {
    hide EscapeByte, Printed, Taken, Text, Length, Escape, UpToNul;
    ghost var src := Source(memory, zeroTerm, srcSize);
    ghost var before := dst[..];
    if zeroTerm {
      UpToNulMeaning(memory);
    }
    TextLength(src, dstSize);
    var dstEnd := at + dstSize - 5;
    end := at;
    dst[end] := '"';
    end := end + 1;
    var i, rest := 0, srcSize;
    OpeningQuote(before, dst[..], at, src);
    while end < dstEnd && (zeroTerm || rest > 0) && !(zeroTerm && memory[i] == 0)
      invariant 0 <= i <= |src| && end == at + 1 + Length(src, i)
      invariant if zeroTerm then i < |memory| else rest == srcSize - i
      invariant Taken(src, dstSize, 0) == Taken(src, dstSize, i)
      invariant Printed(before, dst[..], at, ['"'] + Escape(src[..i]))
      decreases |src| - i
    {
      assert i < |src| && memory[i] == src[i];
      TakenStep(src, dstSize, i);
      LengthStep(src, i);
      LengthUpTo(src, i + 1, Taken(src, dstSize, 0));
      ghost var middle := dst[..];
      end := PrintByte(dst, end, memory[i]);
      EscapeSnoc(src, i);
      PrintedAfter(before, middle, dst[..], at, ['"'] + Escape(src[..i]), EscapeByte(src[i]));
      assert ['"'] + Escape(src[..i]) + EscapeByte(src[i]) == ['"'] + Escape(src[..i + 1]);
      i := i + 1;
      if !zeroTerm {
        rest := rest - 1;
      }
    }
    TakenStep(src, dstSize, i);
    left := (rest > 0 && !zeroTerm) || (zeroTerm && memory[i] != 0);
  }

  lemma OpeningQuote(before: seq<char>, after: seq<char>, at: nat, src: seq<Byte>)
    requires at < |before| && after == before[at := '"']
    ensures Printed(before, after, at, ['"'] + Escape(src[..0])) && Length(src, 0) == 0
  {
    assert ['"'] + Escape(src[..0]) == ['"'];
  }

  lemma TakenStep(src: seq<Byte>, size: nat, i: nat)
    requires i <= |src|
    ensures Taken(src, size, i)
         == if i < |src| && 1 + Length(src, i) < size - 5 then Taken(src, size, i + 1) else i
  {
  }

  lemma LengthUpTo(src: seq<Byte>, i: nat, j: nat)
    requires i <= j <= |src|
    ensures Length(src, i) <= Length(src, j)
  {
    hide Length;
    if i < j {
      LengthIncreases(src, i, j);
    }
  }

  lemma EscapeSnoc(src: seq<Byte>, i: nat)
    requires i < |src|
    ensures Escape(src[..i + 1]) == Escape(src[..i]) + EscapeByte(src[i])
    ensures Length(src, i) == |Escape(src[..i])|
  {
    assert src[..i + 1][..i] == src[..i];
  }

  /** xprint_escape: None stands for the null pointer. */
  method XprintEscape(dst: array<char>, at: nat, memory: Option<seq<Byte>>, dstSize: nat, zeroTerm: bool, srcSize: nat)
    returns (end: nat)
    requires memory.Some? ==> if zeroTerm then 0 in memory.value else srcSize <= |memory.value|
    requires at + |Printout(memory, dstSize, zeroTerm, srcSize)| < dst.Length
    modifies dst
    ensures end == at + |Printout(memory, dstSize, zeroTerm, srcSize)| && dst[end] == '\0'
    ensures Printed(old(dst[..]), dst[..], at, Printout(memory, dstSize, zeroTerm, srcSize))
  {
    hide Taken, Escape, Printed, Length, Source;
    if memory.None? {
      end := PrintCstr(dst, at, "(null)");
      return;
    }
    ghost var src := Source(memory.value, zeroTerm, srcSize);
    ghost var before, quoted := dst[..], ['"'] + Escape(src[..Taken(src, dstSize, 0)]);
    TextLength(src, dstSize);
    assert |quoted| == 1 + Length(src, Taken(src, dstSize, 0)) by { LengthOf(src, Taken(src, dstSize, 0)); }
    var left: bool;
    end, left := PrintBytes(dst, at, memory.value, dstSize, zeroTerm, srcSize);
    ghost var middle := dst[..];
    end := PrintCstr(dst, end, if left then "...\"" else "\"");
    PrintedAfter(before, middle, dst[..], at, quoted, if left then "...\"" else "\"");
    assert quoted + (if left then "...\"" else "\"") == Text(src, dstSize);
  }

  lemma LengthOf(src: seq<Byte>, k: nat)
    requires k <= |src|
    ensures Length(src, k) == |Escape(src[..k])|
  {
  }

  ghost function Printout(memory: Option<seq<Byte>>, dstSize: nat, zeroTerm: bool, srcSize: nat): string
    requires memory.Some? ==> if zeroTerm then 0 in memory.value else srcSize <= |memory.value|
  {
    if memory.None? then "(null)" else Text(Source(memory.value, zeroTerm, srcSize), dstSize)
  }
}
