/** Component names: the optional string table inside the header and the
    names synthesized when it is absent (`ami_1B_lib.c`,
    `get_component_string_start` and the naming step of `parse_header`). */
module Names {
  import opened Bytes
  import opened Results
  import opened Layout

  /** What the string-table locator reports: no table, or the offset of the
      first name and the pad width between consecutive names. */
  datatype StringTable = NoStrings | Strings(start: nat, pad: nat)

  /** The four bytes `"RUN_"` (prefix of the first name, `RUN_CSEG`) at `p`. */
  predicate RunSignatureAt(buf: seq<byte>, p: nat) {
    && ByteAt(buf, p) == 0x52
    && ByteAt(buf, p + 1) == 0x55
    && ByteAt(buf, p + 2) == 0x4E
    && ByteAt(buf, p + 3) == 0x5F
  }

  /** The two bytes `"00"` at `p`: the mark of a version 4.00 header. */
  predicate PadMarkerAt(buf: seq<byte>, p: nat) {
    ByteAt(buf, p) == 0x30 && ByteAt(buf, p + 1) == 0x30
  }

  /** Pad width selected by the version mark two bytes after the table. */
  function PadWidth(buf: seq<byte>, p: nat): nat {
    if PadMarkerAt(buf, p) then 5 else 4
  }

  /** Byte-by-byte scan of `[from, end)` for the first `"RUN_"`. */
  function FindSignature(buf: seq<byte>, from: nat, end: nat): (r: Option<nat>)
    decreases end - from
    ensures r.Some? ==> from <= r.value < end && RunSignatureAt(buf, r.value)
    ensures r.Some? ==> forall p :: from <= p < r.value ==> !RunSignatureAt(buf, p)
    ensures r.None? ==> forall p :: from <= p < end ==> !RunSignatureAt(buf, p)
  {
    if from >= end then None
    else if RunSignatureAt(buf, from) then Some(from)
    else FindSignature(buf, from + 1, end)
  }

  /** `get_component_string_start` followed by the fallback of `parse_header`:
      whenever the locator does not report a table, there is none and the pad
      is 0. The u16 arithmetic on the table end is kept. */
  function LocateStrings(raw: seq<byte>, headerLen: u16, count: u16): (r: StringTable)
    ensures headerLen == 0 || count == 0 ==> r == NoStrings
    ensures Wrap16(TableEnd(count)) >= headerLen ==> r == NoStrings
    ensures r.Strings? ==>
      && Wrap16(TableEnd(count)) < headerLen
      && r.pad == PadWidth(raw, Wrap16(TableEnd(count) + 2))
      && Wrap16(TableEnd(count) + 4) <= r.start < headerLen
      && RunSignatureAt(raw, r.start)
      && forall p :: Wrap16(TableEnd(count) + 4) <= p < r.start ==> !RunSignatureAt(raw, p)
    ensures headerLen > 0 && count > 0 && Wrap16(TableEnd(count)) < headerLen && r == NoStrings ==>
      forall p :: Wrap16(TableEnd(count) + 4) <= p < headerLen ==> !RunSignatureAt(raw, p)
  {
    if headerLen == 0 || count == 0 then NoStrings
    else if Wrap16(TableEnd(count)) < headerLen then
      var pad := PadWidth(raw, Wrap16(TableEnd(count) + 2));
      match FindSignature(raw, Wrap16(TableEnd(count) + 4), headerLen)
      case Some(start) => Strings(start, pad)
      case None => NoStrings
    else NoStrings
  }

  /** The NUL-terminated string at `p`; the end of the buffer terminates it too. */
  function CString(buf: seq<byte>, p: nat): (r: seq<byte>)
    decreases |buf| - p
    ensures p + |r| <= |buf| || r == []
    ensures p <= |buf| ==> r == buf[p..p + |r|]
    ensures forall k :: 0 <= k < |r| ==> r[k] != 0
    ensures ByteAt(buf, p + |r|) == 0
  {
    if p >= |buf| || buf[p] == 0 then []
    else [buf[p]] + CString(buf, p + 1)
  }

  /** A name read from the string table, as stored in the 200-byte name field
      (at most 199 characters before the NUL). */
  function ReadName(buf: seq<byte>, p: nat): (r: seq<byte>)
    ensures |r| < MaxComponentName
    ensures |r| <= |CString(buf, p)| && r == CString(buf, p)[..|r|]
    ensures |CString(buf, p)| < MaxComponentName ==> r == CString(buf, p)
    ensures |CString(buf, p)| >= MaxComponentName ==> |r| == MaxComponentName - 1
  {
    var s := CString(buf, p);
    if |s| < MaxComponentName then s else s[..MaxComponentName - 1]
  }

  /** Cursor of the next name: past this name and the pad, in u16. */
  function NextNameCursor(buf: seq<byte>, pad: nat, p: nat): u16 {
    Wrap16(p + |CString(buf, p)| + pad)
  }

  /** Cursor of the `k`-th name after the one at `p`. */
  function NameCursor(buf: seq<byte>, pad: nat, p: nat, k: nat): nat
    decreases k
  {
    if k == 0 then p else NameCursor(buf, pad, NextNameCursor(buf, pad, p), k - 1)
  }

  /** Each name starts right after the previous one and its pad: the cursor
      of name `k + 1` is `strlen` plus the pad past the cursor of name `k`. */
  lemma {:induction false} NameCursorAdvances(buf: seq<byte>, pad: nat, p: nat, k: nat)
    ensures NameCursor(buf, pad, p, k + 1) == NextNameCursor(buf, pad, NameCursor(buf, pad, p, k))
    ensures NameCursor(buf, pad, p, k + 1) ==
      Wrap16(NameCursor(buf, pad, p, k) + |CString(buf, NameCursor(buf, pad, p, k))| + pad)
    decreases k
  {
    if k > 0 {
      NameCursorAdvances(buf, pad, NextNameCursor(buf, pad, p), k - 1);
    }
  }

  /** Upper-case hexadecimal digit. */
  function HexDigit(d: nat): byte
    requires d < 16
  {
    if d < 10 then 0x30 + d else 0x41 + (d - 10)
  }

  /** `%X` */
  function HexDigits(n: nat): (r: seq<byte>)
    ensures |r| >= 1
  {
    if n < 16 then [HexDigit(n)] else HexDigits(n / 16) + [HexDigit(n % 16)]
  }

  /** `%02X` */
  function Hex02(n: nat): seq<byte> {
    if n < 16 then [0x30, HexDigit(n)] else HexDigits(n)
  }

  /** `"_1B_component_"` */
  const SyntheticPrefix: seq<byte> :=
    [0x5F, 0x31, 0x42, 0x5F, 0x63, 0x6F, 0x6D, 0x70, 0x6F, 0x6E, 0x65, 0x6E, 0x74, 0x5F]

  /** `'h'` */
  const HexSuffix: byte := 0x68

  /** `snprintf(name, 18, "_1B_component_%02Xh", i)`: at most 17 characters. */
  function SyntheticName(i: nat): seq<byte> {
    var s := SyntheticPrefix + Hex02(i) + [HexSuffix];
    if |s| <= 17 then s else s[..17]
  }

  /** Positions below 256 get the prefix, two hex digits and `h`; positions
      from 256 up to the table capacity lose the `h` to the 18-byte bound. */
  lemma SyntheticNameShape(i: nat)
    requires i < MaxComponent
    ensures i < 0x100 ==> SyntheticName(i) == SyntheticPrefix + [HexDigit(i / 16), HexDigit(i % 16)] + [HexSuffix]
    ensures i >= 0x100 ==>
      SyntheticName(i) == SyntheticPrefix + [HexDigit(i / 0x100), HexDigit((i / 16) % 16), HexDigit(i % 16)]
    ensures |SyntheticName(i)| == 17
  {
    if i < 16 {
      assert Hex02(i) == [0x30, HexDigit(i)];
    } else if i < 0x100 {
      assert HexDigits(i / 16) == [HexDigit(i / 16)];
    } else {
      assert HexDigits(i / 0x100) == [HexDigit(i / 0x100)];
      assert HexDigits(i / 16) == [HexDigit(i / 0x100), HexDigit((i / 16) % 16)];
      var s := SyntheticPrefix + Hex02(i) + [HexSuffix];
      assert s[..17] == SyntheticPrefix + Hex02(i);
    }
  }

  /** Synthesized names of different positions differ. */
  lemma SyntheticNamesDistinct(i: nat, j: nat)
    requires i < MaxComponent && j < MaxComponent && i != j
    ensures SyntheticName(i) != SyntheticName(j)
  {
    SyntheticNameShape(i);
    SyntheticNameShape(j);
    var a, b := SyntheticName(i), SyntheticName(j);
    if i < 0x100 && j < 0x100 {
      assert a[14] == HexDigit(i / 16) && a[15] == HexDigit(i % 16);
      assert b[14] == HexDigit(j / 16) && b[15] == HexDigit(j % 16);
      assert i == 16 * (i / 16) + i % 16 && j == 16 * (j / 16) + j % 16;
    } else if i >= 0x100 && j >= 0x100 {
      assert a[14] == HexDigit(i / 0x100) && a[15] == HexDigit((i / 16) % 16) && a[16] == HexDigit(i % 16);
      assert b[14] == HexDigit(j / 0x100) && b[15] == HexDigit((j / 16) % 16) && b[16] == HexDigit(j % 16);
      assert i == 0x100 * (i / 0x100) + 16 * ((i / 16) % 16) + i % 16;
      assert j == 0x100 * (j / 0x100) + 16 * ((j / 16) % 16) + j % 16;
    } else if i < 0x100 {
      assert a[16] == HexSuffix && b[16] == HexDigit(j % 16);
    } else {
      assert b[16] == HexSuffix && a[16] == HexDigit(i % 16);
    }
  }
}
