/** The header/table decoder (`ami_1B_lib.c`, `parse_header`): walks the
    8-byte descriptors, splits the presence bit off the length word, names
    every component and accumulates the file offsets of the present ones. */
module Decoder {
  import opened Bytes
  import opened Results
  import opened Layout
  import opened Names

  /** What `parse_header` fills in: the header fields, the component table and
      the calculated file size. Payload buffers are still empty. */
  datatype Parsed = Parsed(header: Header, components: seq<Component>, calculatedSize: u32)

  datatype DecodeError = InvalidHeaderInfo | TooManyComponents

  function PadOf(table: StringTable): nat {
    if table.Strings? then table.pad else 0
  }

  /** Name of entry `i`: read at its cursor in the string table, or
      synthesized from `i` when there is no table. */
  function EntryName(raw: seq<byte>, table: StringTable, i: nat): seq<byte> {
    if table.Strings? then ReadName(raw, NameCursor(raw, table.pad, table.start, i)) else SyntheticName(i)
  }

  /** The names of entries `0` to `count - 1`. The name cursor of the loop
      does not depend on the file cursor, so the names form their own pass. */
  function EntryNames(raw: seq<byte>, table: StringTable, count: nat): (r: seq<seq<byte>>)
    ensures |r| == count
  {
    seq(count, i requires 0 <= i < count => EntryName(raw, table, i))
  }

  /** One step of the decoding loop for table entry `i`. */
  function DecodeEntry(raw: seq<byte>, name: seq<byte>, i: nat, fileCursor: u32): Component {
    var word := LengthField(raw, i);
    var present := word >= PresentBit;
    Component(name, AddressField(raw, i), MaskLength(word), present, if present then fileCursor else 0, None)
  }

  /** File cursor after entry `c`: advanced past a present payload, in u32. */
  function NextFileCursor(fileCursor: u32, c: Component): u32 {
    if c.present then Wrap32(fileCursor + c.length) else fileCursor
  }

  /** Entries `i` up to `|names|` of the decoding loop, threading the u32 file
      cursor; returns them with the final file cursor. */
  function DecodeFrom(raw: seq<byte>, names: seq<seq<byte>>, i: nat, fileCursor: u32)
    : (r: (seq<Component>, u32))
    requires i <= |names|
    decreases |names| - i
    ensures |r.0| == |names| - i
    ensures forall k :: 0 <= k < |r.0| ==> r.0[k].payload.None?
  {
    if i == |names| then ([], fileCursor)
    else
      var c := DecodeEntry(raw, names[i], i, fileCursor);
      var rest := DecodeFrom(raw, names, i + 1, NextFileCursor(fileCursor, c));
      ([c] + rest.0, rest.1)
  }

  /** `parse_header`: rejects a zero count or length and a count above the
      table capacity; otherwise locates the string table and decodes every
      entry, the file cursor starting at the header length. */
  function ParseHeader(raw: seq<byte>, headerLen: u16, count: u16): (r: Result<Parsed, DecodeError>)
    requires |raw| == headerLen
    ensures r.Err? <==> headerLen == 0 || count == 0 || count > MaxComponent
    ensures headerLen == 0 || count == 0 ==> r == Err(InvalidHeaderInfo)
    ensures headerLen > 0 && count > MaxComponent ==> r == Err(TooManyComponents)
    ensures r.Ok? ==>
      && r.value.header.count == count
      && r.value.header.length == headerLen
      && r.value.header.raw == raw
      && |r.value.components| == count
      && (forall i :: 0 <= i < count ==> r.value.components[i].payload.None?)
      && (r.value.header.hasStrings <==> LocateStrings(raw, headerLen, count).Strings?)
      && (r.value.header.hasStrings ==> r.value.header.padLength == LocateStrings(raw, headerLen, count).pad)
      && (!r.value.header.hasStrings ==> r.value.header.padLength == 0)
  {
    if headerLen == 0 || count == 0 then Err(InvalidHeaderInfo)
    else if count > MaxComponent then Err(TooManyComponents)
    else
      var table := LocateStrings(raw, headerLen, count);
      var entries := DecodeFrom(raw, EntryNames(raw, table, count), 0, headerLen);
      Ok(Parsed(Header(count, headerLen, table.Strings?, PadOf(table), raw), entries.0, entries.1))
  }

  /** The table fields of entry `i` as the decoder must report them: the
      physical address verbatim, presence exactly bit 31 of the length word,
      the length that word with bit 31 cleared, and no payload yet. */
  ghost predicate FieldsDecoded(raw: seq<byte>, i: nat, c: Component) {
    && c.physicalAddress == AddressField(raw, i)
    && (c.present <==> LengthField(raw, i) >= PresentBit)
    && c.length == MaskLength(LengthField(raw, i))
    && c.payload.None?
  }

  /** One unfolding of the decoding loop. */
  lemma DecodeFromStep(raw: seq<byte>, names: seq<seq<byte>>, i: nat, fileCursor: u32)
    requires i < |names|
    ensures var r := DecodeFrom(raw, names, i, fileCursor);
      var c := DecodeEntry(raw, names[i], i, fileCursor);
      var rest := DecodeFrom(raw, names, i + 1, NextFileCursor(fileCursor, c));
      && r.0 == [c] + rest.0 && r.0[0] == c && r.0[1..] == rest.0 && r.1 == rest.1
  {
  }

  /** Entry `j` of a run of the loop started at entry `i`: its table fields
      and its name. */
  lemma {:induction false} DecodeFromEntry(raw: seq<byte>, names: seq<seq<byte>>, i: nat, fileCursor: u32, j: nat)
    requires i <= j < |names|
    ensures var r := DecodeFrom(raw, names, i, fileCursor);
      FieldsDecoded(raw, j, r.0[j - i]) && r.0[j - i].name == names[j]
    decreases j - i
  {
    DecodeFromStep(raw, names, i, fileCursor);
    if i < j {
      var c := DecodeEntry(raw, names[i], i, fileCursor);
      DecodeFromEntry(raw, names, i + 1, NextFileCursor(fileCursor, c), j);
    }
  }

  /** Entry `j` of a run of the loop started at entry `i`: its file offset. */
  lemma {:induction false} DecodeFromOffset(raw: seq<byte>, names: seq<seq<byte>>, i: nat, fileCursor: u32, j: nat)
    requires i <= j < |names|
    ensures var r := DecodeFrom(raw, names, i, fileCursor);
      r.0[j - i].fileOffset == (if r.0[j - i].present then Wrap32(fileCursor + PresentLength(r.0[..j - i])) else 0)
    decreases j - i
  {
    var r := DecodeFrom(raw, names, i, fileCursor);
    var c := DecodeEntry(raw, names[i], i, fileCursor);
    var rest := DecodeFrom(raw, names, i + 1, NextFileCursor(fileCursor, c));
    DecodeFromStep(raw, names, i, fileCursor);
    if i == j {
      assert r.0[..0] == [];
    } else {
      var k := j - i;
      DecodeFromOffset(raw, names, i + 1, NextFileCursor(fileCursor, c), j);
      assert r.0[k] == rest.0[k - 1];
      assert r.0[..k] == [c] + rest.0[..k - 1];
      if r.0[k].present {
        CursorStep(fileCursor, c, rest.0[..k - 1], rest.0[k - 1].fileOffset);
      }
    }
  }

  /** The final file cursor of a run of the loop started at entry `i`. */
  lemma {:induction false} DecodeFromCursor(raw: seq<byte>, names: seq<seq<byte>>, i: nat, fileCursor: u32)
    requires i <= |names|
    ensures var r := DecodeFrom(raw, names, i, fileCursor);
      r.1 == Wrap32(fileCursor + PresentLength(r.0))
    decreases |names| - i
  {
    if i < |names| {
      var c := DecodeEntry(raw, names[i], i, fileCursor);
      var rest := DecodeFrom(raw, names, i + 1, NextFileCursor(fileCursor, c));
      DecodeFromStep(raw, names, i, fileCursor);
      DecodeFromCursor(raw, names, i + 1, NextFileCursor(fileCursor, c));
      CursorStep(fileCursor, c, rest.0, rest.1);
    }
  }

  /** The cursor arithmetic of one loop step, apart from the decoding. */
  lemma CursorStep(fileCursor: u32, c: Component, rest: seq<Component>, restEnd: nat)
    requires restEnd == Wrap32(NextFileCursor(fileCursor, c) + PresentLength(rest))
    ensures restEnd == Wrap32(fileCursor + PresentLength([c] + rest))
  {
    assert ([c] + rest)[1..] == rest;
    var term := if c.present then c.length else 0;
    Wrap32Add(fileCursor + term, PresentLength(rest));
  }

  /** The whole decoding loop, for any list of names: fields and names. */
  lemma DecodedFields(raw: seq<byte>, names: seq<seq<byte>>, start: u32)
    ensures var r := DecodeFrom(raw, names, 0, start);
      forall i :: 0 <= i < |names| ==> FieldsDecoded(raw, i, r.0[i]) && r.0[i].name == names[i]
  {
    var r := DecodeFrom(raw, names, 0, start);
    forall i | 0 <= i < |names|
      ensures FieldsDecoded(raw, i, r.0[i]) && r.0[i].name == names[i]
    {
      DecodeFromEntry(raw, names, 0, start, i);
    }
  }

  /** The whole decoding loop, for any list of names: file offsets. */
  lemma DecodedOffsets(raw: seq<byte>, names: seq<seq<byte>>, start: u32)
    ensures OffsetsAccumulate(DecodeFrom(raw, names, 0, start).0, start)
  {
    var r := DecodeFrom(raw, names, 0, start);
    forall i | 0 <= i < |names|
      ensures r.0[i].fileOffset == (if r.0[i].present then Wrap32(start + PresentLength(r.0[..i])) else 0)
    {
      DecodeFromOffset(raw, names, 0, start, i);
    }
  }

  /** Everything `parse_header` establishes about the table it decodes. */
  lemma ParsedTable(raw: seq<byte>, headerLen: u16, count: u16)
    requires |raw| == headerLen
    requires ParseHeader(raw, headerLen, count).Ok?
    ensures var p := ParseHeader(raw, headerLen, count).value;
      && (forall i :: 0 <= i < count ==> FieldsDecoded(raw, i, p.components[i]))
      && (forall i :: 0 <= i < count ==> p.components[i].name == EntryName(raw, LocateStrings(raw, headerLen, count), i))
      && OffsetsAccumulate(p.components, headerLen)
      && p.calculatedSize == Wrap32(headerLen + PresentLength(p.components))
  {
    var table := LocateStrings(raw, headerLen, count);
    var names := EntryNames(raw, table, count);
    var r := DecodeFrom(raw, names, 0, headerLen);
    assert ParseHeader(raw, headerLen, count) == Ok(Parsed(Header(count, headerLen, table.Strings?, PadOf(table), raw), r.0, r.1));
    DecodedFields(raw, names, headerLen);
    DecodedOffsets(raw, names, headerLen);
    DecodeFromCursor(raw, names, 0, headerLen);
    assert forall i :: 0 <= i < count ==> names[i] == EntryName(raw, table, i);
  }

  /** Within the table capacity the u16 arithmetic of the locator never wraps. */
  lemma TableEndNoWrap(count: u16)
    requires count <= MaxComponent
    ensures Wrap16(TableEnd(count)) == TableEnd(count)
    ensures Wrap16(TableEnd(count) + 2) == TableEnd(count) + 2
    ensures Wrap16(TableEnd(count) + 4) == TableEnd(count) + 4
  {
  }

  /** Within the table capacity the locator reads as written without u16
      arithmetic: no table when the table end reaches the header length;
      otherwise the pad is chosen at table end + 2, and the table starts at the
      first `"RUN_"` from table end + 4 on, or is absent when there is none. */
  lemma LocateStringsWithinCapacity(raw: seq<byte>, headerLen: u16, count: u16)
    requires 0 < count <= MaxComponent && headerLen > 0
    ensures TableEnd(count) >= headerLen ==> LocateStrings(raw, headerLen, count) == NoStrings
    ensures var r := LocateStrings(raw, headerLen, count);
      r.Strings? ==>
        && TableEnd(count) < headerLen
        && r.pad == PadWidth(raw, TableEnd(count) + 2)
        && TableEnd(count) + 4 <= r.start < headerLen
        && RunSignatureAt(raw, r.start)
        && forall p :: TableEnd(count) + 4 <= p < r.start ==> !RunSignatureAt(raw, p)
    ensures TableEnd(count) < headerLen && LocateStrings(raw, headerLen, count) == NoStrings ==>
      forall p :: TableEnd(count) + 4 <= p < headerLen ==> !RunSignatureAt(raw, p)
  {
    TableEndNoWrap(count);
  }

  /** Re-encoding a decoded entry gives back its length word. */
  lemma DecodedLengthEncodes(raw: seq<byte>, i: nat, c: Component)
    requires FieldsDecoded(raw, i, c)
    ensures EncodedLength(c) == LengthField(raw, i)
    ensures c.length < PresentBit
  {
  }

  /** The first present component starts right after the header. */
  lemma FirstPresentOffset(cs: seq<Component>, start: u32, k: nat)
    requires OffsetsAccumulate(cs, start)
    requires k < |cs| && cs[k].present
    requires forall j :: 0 <= j < k ==> !cs[j].present
    ensures cs[k].fileOffset == start
  {
    assert PresentLength(cs[..k]) == 0 by {
      NoPresentNoLength(cs[..k]);
    }
  }

  /** Each later present component starts where the previous present one ends. */
  lemma NextPresentOffset(cs: seq<Component>, start: nat, j: nat, k: nat)
    requires OffsetsAccumulate(cs, start)
    requires j < k < |cs| && cs[j].present && cs[k].present
    requires forall m :: j < m < k ==> !cs[m].present
    ensures cs[k].fileOffset == Wrap32(cs[j].fileOffset + cs[j].length)
  {
    assert cs[..k] == cs[..j] + [cs[j]] + cs[j + 1..k];
    PresentLengthAppend(cs[..j] + [cs[j]], cs[j + 1..k]);
    PresentLengthAppend(cs[..j], [cs[j]]);
    assert PresentLength([cs[j]]) == cs[j].length by {
      assert [cs[j]][1..] == [];
    }
    NoPresentNoLength(cs[j + 1..k]);
    Wrap32Add(start + PresentLength(cs[..j]), cs[j].length);
  }

  /** Absent components contribute nothing to the calculated size; the
      decoded sizes for the table `{present 0x10, absent 0x20, present 0x30}`. */
  lemma ThreeComponentExample(hl: u16, a: Component, b: Component, c: Component)
    requires hl > 0
    requires a.present && a.length == 0x10 && !b.present && b.length == 0x20 && c.present && c.length == 0x30
    requires OffsetsAccumulate([a, b, c], hl)
    ensures a.fileOffset == hl && b.fileOffset == 0 && c.fileOffset == hl + 0x10
    ensures PresentLength([a, b, c]) == 0x40
  {
    var cs := [a, b, c];
    assert cs[0] == a && cs[1] == b && cs[2] == c;
    assert cs[..0] == [] && cs[..1] == [a] && cs[..2] == [a, b];
    assert PresentLength([c]) == 0x30 by { assert [c][1..] == []; }
    assert PresentLength([b, c]) == 0x30 by { assert [b, c][1..] == [c]; }
    assert PresentLength(cs) == 0x40 by { assert cs[1..] == [b, c]; }
    assert PresentLength([b]) == 0 by { assert [b][1..] == []; }
    assert PresentLength([a, b]) == 0x10 by { assert [a, b][1..] == [b]; }
    assert cs[2].fileOffset == Wrap32(hl + PresentLength(cs[..2]));
  }
}
