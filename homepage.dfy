/** Model of homepage.h: the control page is four constant fragments with two
    three-digit fields and the host name spliced between them, and a patch
    that rewrites just the two fields of an existing page in place.

    The fragments are HTML and script text; the model keeps them opaque, since
    only their lengths and their order matter to the splice and the patch. */
module HomePage {
  import opened CInt

  /** `index_1` .. `index_4`: the constant fragments of the page. */
  const Index1: string
  const Index2: string
  const Index3: string
  const Index4: string

  /** Where the value (V slider) field starts: right after `index_1`. */
  const ValueField: nat := |Index1|

  /** Where the saturation (S slider) field starts: after the value field and
      `index_2`. */
  const SaturationField: nat := |Index1| + 3 + |Index2|

  /** `values & 0xff`: the value shown by the V slider. It differs from
      `values` by a multiple of 256. */
  function LowByte(values: UInt32): (b: Byte)
    ensures (values - b) % 0x100 == 0
  {
    values % 0x100
  }

  /** `(values >> 8) & 0xff`: the saturation shown by the S slider. With the
      low byte below it, it makes up bits 0..15 of `values`. */
  function SecondByte(values: UInt32): (b: Byte)
    ensures values % 0x1_0000 == b * 0x100 + LowByte(values)
  {
    var q, r := values / 0x1_0000, values % 0x1_0000;
    DivModUnique(values, 0x100, q * 0x100 + r / 0x100, r % 0x100);
    DivModUnique(q * 0x100 + r / 0x100, 0x100, q, r / 0x100);
    values / 0x100 % 0x100
  }

  predicate IsDigit(c: char)
  {
    '0' <= c <= '9'
  }

  /** The character of a decimal digit. */
  function Digit(d: int): (c: char)
    requires 0 <= d < 10
    ensures IsDigit(c) && c as int - '0' as int == d
  {
    ('0' as int + d) as char
  }

  /** The number a string of decimal digits spells, most significant first. */
  function DecimalValue(s: string): int
  {
    if s == [] then 0 else DecimalValue(s[..|s| - 1]) * 10 + (s[|s| - 1] as int - '0' as int)
  }

  /** A three-character string spells the number its digits weigh by
      hundreds, tens and units. */
  lemma DecimalValueOfThree(s: string)
    requires |s| == 3
    ensures DecimalValue(s) == (s[0] as int - '0' as int) * 100 + (s[1] as int - '0' as int) * 10 + (s[2] as int - '0' as int)
  {
    var d0, d1, d2 := s[0] as int - '0' as int, s[1] as int - '0' as int, s[2] as int - '0' as int;
    assert s[..2][..1] == s[..1];
    assert s[..1][..0] == [];
    assert DecimalValue(s[..1]) == d0;
    assert DecimalValue(s[..2]) == d0 * 10 + d1;
  }

  /** `sprintf(ch, "%03d", x)` for a byte: exactly three digits, zero-padded,
      that spell `x`. */
  function Fmt3(x: Byte): (s: string)
    ensures |s| == 3 && IsDigit(s[0]) && IsDigit(s[1]) && IsDigit(s[2])
    ensures DecimalValue(s) == x
  {
    var s := [Digit(x / 100), Digit(x / 10 % 10), Digit(x % 10)];
    DecimalValueOfThree(s);
    assert x / 100 * 100 + x / 10 % 10 * 10 + x % 10 == x;
    s
  }

  /** Every three-digit string spelling a byte is that byte's `%03d` form, so
      formatting is a bijection between bytes and such strings. */
  lemma Fmt3OfDecimalValue(s: string)
    requires |s| == 3 && IsDigit(s[0]) && IsDigit(s[1]) && IsDigit(s[2])
    requires 0 <= DecimalValue(s) < 0x100
    ensures Fmt3(DecimalValue(s)) == s
  {
    DecimalValueOfThree(s);
    var d0, d1, d2 := s[0] as int - '0' as int, s[1] as int - '0' as int, s[2] as int - '0' as int;
    var x := DecimalValue(s);
    DivModUnique(x, 100, d0, d1 * 10 + d2);
    DivModUnique(x, 10, d0 * 10 + d1, d2);
    DivModUnique(d0 * 10 + d1, 10, d0, d1);
  }

  /** The page as `constructHomePage` assembles it. */
  function Page(values: UInt32, hostname: string): (page: string)
    ensures |page| == |Index1| + |Index2| + |Index3| + |hostname| + |Index4| + 6
    ensures page[..ValueField] == Index1
    ensures page[|page| - |Index4|..] == Index4
  {
    Index1 + Fmt3(LowByte(values)) + Index2 + Fmt3(SecondByte(values)) + Index3 + hostname + Index4
  }

  /** The two fields of a constructed page sit at `ValueField` and
      `SaturationField` and read back as the low and the second byte of
      `values`. */
  lemma PageFields(values: UInt32, hostname: string)
    ensures |Page(values, hostname)| == SaturationField + 3 + |Index3| + |hostname| + |Index4|
    ensures Page(values, hostname)[ValueField..ValueField + 3] == Fmt3(LowByte(values))
    ensures Page(values, hostname)[SaturationField..SaturationField + 3] == Fmt3(SecondByte(values))
    ensures DecimalValue(Page(values, hostname)[ValueField..ValueField + 3]) == LowByte(values)
    ensures DecimalValue(Page(values, hostname)[SaturationField..SaturationField + 3]) == SecondByte(values)
  {
  }

  /** `constructHomePage`: builds the page by successive appends. The host
      name is a parameter in place of the network stack's `hostname()`. */
  method ConstructHomePage(values: UInt32, hostname: string) returns (buffer: string)
    ensures buffer == Page(values, hostname)
  {
    buffer := Index1;
    var ch := Fmt3(LowByte(values));
    buffer := buffer + ch;
    buffer := buffer + Index2;
    ch := Fmt3(SecondByte(values));
    buffer := buffer + ch;
    buffer := buffer + Index3;
    buffer := buffer + hostname;
    buffer := buffer + Index4;
  }

  /** Arduino's `String::setCharAt`: replaces the character at `loc`; a
      position past the end is ignored. */
  function SetCharAt(s: string, loc: nat, c: char): (t: string)
    ensures |t| == |s|
    ensures forall k :: 0 <= k < |s| ==> t[k] == if k == loc then c else s[k]
  {
    if loc < |s| then s[loc := c] else s
  }

  /** `field` written over `s` from position `at` with one `setCharAt` per
      character, first to last. The length never changes; positions inside
      the field take the field's character, all others keep theirs. */
  function Overwrite(s: string, at: nat, field: string): (t: string)
    ensures |t| == |s|
    ensures forall k :: 0 <= k < |s| ==> t[k] == if at <= k < at + |field| then field[k - at] else s[k]
    decreases |field|
  {
    if field == [] then s else Overwrite(SetCharAt(s, at, field[0]), at + 1, field[1..])
  }

  /** The effect of `patchHomePage` on a page: the value field, then the
      saturation field, rewritten in place with the `%03d` forms of the low
      and the second byte of `values`. Nothing else changes, and nothing is
      written past the end. */
  function Patched(s: string, values: UInt32): (t: string)
    ensures |t| == |s|
    ensures forall k :: 0 <= k < |s| ==>
      t[k] == if ValueField <= k < ValueField + 3 then Fmt3(LowByte(values))[k - ValueField]
              else if SaturationField <= k < SaturationField + 3 then Fmt3(SecondByte(values))[k - SaturationField]
              else s[k]
  {
    Overwrite(Overwrite(s, ValueField, Fmt3(LowByte(values))), SaturationField, Fmt3(SecondByte(values)))
  }

  /** `patchHomePage`: rewrites the two fields of `buffer` in place with two
      `setCharAt` loops. */
  method PatchHomePage(buffer: array<char>, values: UInt32)
    modifies buffer
    ensures buffer[..] == Patched(old(buffer[..]), values)
  {
    ghost var original := buffer[..];
    var i := |Index1|;
    var ch := Fmt3(LowByte(values));
    for j := 0 to 3
      invariant forall k :: 0 <= k < buffer.Length ==>
        buffer[k] == if i <= k < i + j then ch[k - i] else original[k]
    {
      if i + j < buffer.Length {
        buffer[i + j] := ch[j];
      }
    }
    assert buffer[..] == Overwrite(original, ValueField, ch);

    ghost var middle := buffer[..];
    i := i + 3 + |Index2|;
    ch := Fmt3(SecondByte(values));
    for j := 0 to 3
      invariant forall k :: 0 <= k < buffer.Length ==>
        buffer[k] == if i <= k < i + j then ch[k - i] else middle[k]
    {
      if i + j < buffer.Length {
        buffer[i + j] := ch[j];
      }
    }
    assert buffer[..] == Overwrite(middle, SaturationField, ch);
  }

  /** Each character of a constructed page, by the part of the page it lies
      in. */
  lemma PageAt(values: UInt32, hostname: string, k: int)
    requires 0 <= k < |Page(values, hostname)|
    ensures Page(values, hostname)[k] ==
      if k < ValueField then Index1[k]
      else if k < ValueField + 3 then Fmt3(LowByte(values))[k - ValueField]
      else if k < SaturationField then Index2[k - ValueField - 3]
      else if k < SaturationField + 3 then Fmt3(SecondByte(values))[k - SaturationField]
      else (Index3 + hostname + Index4)[k - SaturationField - 3]
  {
  }

  /** Patching a constructed page gives exactly the page constructed with the
      new values, whatever the old values were. */
  lemma PatchConstructedPage(previous: UInt32, values: UInt32, hostname: string)
    ensures Patched(Page(previous, hostname), values) == Page(values, hostname)
  {
    PageFields(previous, hostname);
    PageFields(values, hostname);
    var before, after := Page(previous, hostname), Page(values, hostname);
    var patched := Patched(before, values);
    forall k | 0 <= k < |after|
      ensures patched[k] == after[k]
    {
      PageAt(previous, hostname, k);
      PageAt(values, hostname, k);
    }
  }

  /** Patching twice with the same values is the same as patching once. */
  lemma PatchIdempotent(s: string, values: UInt32)
    ensures Patched(Patched(s, values), values) == Patched(s, values)
  {
    var once := Patched(s, values);
    var twice := Patched(once, values);
    forall k | 0 <= k < |s|
      ensures twice[k] == once[k]
    {
    }
  }

  /** Only bits 0..15 of `values` matter: the low byte fills the value field,
      the next byte the saturation field, and higher bits are never shown. */
  lemma OnlyLow16BitsMatter(values: UInt32, values': UInt32, hostname: string, s: string)
    requires values % 0x1_0000 == values' % 0x1_0000
    ensures Page(values, hostname) == Page(values', hostname)
    ensures Patched(s, values) == Patched(s, values')
  {
    var q, q' := values / 0x1_0000, values' / 0x1_0000;
    var r := values % 0x1_0000;
    DivModUnique(values, 0x100, q * 0x100 + r / 0x100, r % 0x100);
    DivModUnique(values', 0x100, q' * 0x100 + r / 0x100, r % 0x100);
    DivModUnique(q * 0x100 + r / 0x100, 0x100, q, r / 0x100);
    DivModUnique(q' * 0x100 + r / 0x100, 0x100, q', r / 0x100);
  }
}
