/** Failure-carrying results used by every operation of the format engine. */
module Results {

  datatype Option<+T> = None | Some(value: T)

  datatype Result<+T, +E> = Ok(value: T) | Err(error: E)
}

/** Constants, entities and layout invariants of a 1B module
    (`ami_1B.h`, `ami_1B_internal.h`). */
module Layout {
  import opened Bytes
  import opened Results

  const ComponentCountOffset: nat := 0
  const HeaderLengthOffset: nat := 2
  const HeaderContentsOffset: nat := 4
  /** Size of the prologue: component count and header length. */
  const HeaderInfoLength: nat := 4
  /** Size of one table entry: physical address and length word. */
  const ComponentInfoLength: nat := 8
  const MaxComponentName: nat := 200
  const MaxComponent: nat := 400

  /** The header: prologue fields, what the string-table locator found, and
      the raw bytes that are written back verbatim. */
  datatype Header = Header(
    count: u16,
    length: u16,
    hasStrings: bool,
    padLength: nat,
    raw: seq<byte>)

  /** One table slot. `payload` is the owned buffer; `None` stands for a
      NULL `p_buf`. */
  datatype Component = Component(
    name: seq<byte>,
    physicalAddress: u32,
    length: u32,
    present: bool,
    fileOffset: u32,
    payload: Option<seq<byte>>)

  /** A parsed 1B file. `size` is the file size; `calculatedSize` is derived
      from the table while parsing. */
  datatype Module = Module(
    size: nat,
    calculatedSize: u32,
    header: Header,
    components: seq<Component>)

  // The offsets below are written with literals so that they stay linear
  // arithmetic; `TableOffsets` relates them to the named constants.

  /** Offset of the physical-address word of table entry `i`:
      `HeaderContentsOffset + ComponentInfoLength * i`. */
  function AddressOffset(i: nat): nat {
    4 + 8 * i
  }

  /** Offset of the length-and-presence word of table entry `i`: four bytes
      past its physical-address word. */
  function LengthOffset(i: nat): nat {
    8 + 8 * i
  }

  function AddressField(raw: seq<byte>, i: nat): u32 {
    U32At(raw, AddressOffset(i))
  }

  function LengthField(raw: seq<byte>, i: nat): u32 {
    U32At(raw, LengthOffset(i))
  }

  /** First byte after a table of `count` entries:
      `HeaderInfoLength + ComponentInfoLength * count`. */
  function TableEnd(count: nat): nat {
    4 + 8 * count
  }

  /** The literal offsets are the ones the header constants give. */
  lemma TableOffsets(i: nat)
    ensures AddressOffset(i) == HeaderContentsOffset + ComponentInfoLength * i
    ensures LengthOffset(i) == AddressOffset(i) + 4
    ensures TableEnd(i) == HeaderInfoLength + ComponentInfoLength * i
    ensures AddressOffset(i) + ComponentInfoLength == AddressOffset(i + 1)
  {
  }

  /** The length word a component's table entry should hold: its length, with
      bit 31 set when the payload is present. */
  function EncodedLength(c: Component): u32 {
    if c.present then SetPresent(c.length) else c.length
  }

  /** Sum of the lengths of the present components of `cs`. */
  function PresentLength(cs: seq<Component>): nat {
    if cs == [] then 0
    else (if cs[0].present then cs[0].length else 0) + PresentLength(cs[1..])
  }

  /** The buffers hold as many bytes as the structure says they do, and there
      is one component per table entry. */
  ghost predicate Consistent(m: Module) {
    && |m.header.raw| == m.header.length
    && |m.components| == m.header.count
    && forall i :: 0 <= i < |m.components| && m.components[i].payload.Some? ==>
         |m.components[i].payload.value| == m.components[i].length
  }

  /** Every table entry inside the header buffer encodes its component. */
  ghost predicate HeaderAgrees(m: Module) {
    && TableEnd(m.header.count) <= |m.header.raw|
    && |m.components| == m.header.count
    && forall i :: 0 <= i < |m.components| ==>
         LengthField(m.header.raw, i) == EncodedLength(m.components[i])
  }

  /** Present components are laid out back to back from `start`, in table
      order, with u32 wrap-around; absent ones get offset 0. */
  ghost predicate OffsetsAccumulate(cs: seq<Component>, start: nat) {
    forall k :: 0 <= k < |cs| ==>
      cs[k].fileOffset == (if cs[k].present then Wrap32(start + PresentLength(cs[..k])) else 0)
  }

  /** Present length distributes over concatenation. */
  lemma {:induction false} PresentLengthAppend(s: seq<Component>, t: seq<Component>)
    ensures PresentLength(s + t) == PresentLength(s) + PresentLength(t)
  {
    if s == [] {
      assert s + t == t;
    } else {
      assert (s + t)[1..] == s[1..] + t;
      PresentLengthAppend(s[1..], t);
    }
  }

  /** A list without present entries has present length zero. */
  lemma {:induction false} NoPresentNoLength(cs: seq<Component>)
    requires forall j :: 0 <= j < |cs| ==> !cs[j].present
    ensures PresentLength(cs) == 0
  {
    if cs != [] {
      NoPresentNoLength(cs[1..]);
    }
  }

  /** Present length of a suffix, one entry at a time. */
  lemma PresentLengthCons(cs: seq<Component>, i: nat)
    requires i < |cs|
    ensures PresentLength(cs[i..]) == (if cs[i].present then cs[i].length else 0) + PresentLength(cs[i + 1..])
  {
    assert cs[i..][1..] == cs[i + 1..];
  }

  /** Present length of a prefix grows by one entry at a time. */
  lemma PresentLengthSnoc(cs: seq<Component>, k: nat)
    requires k < |cs|
    ensures PresentLength(cs[..k + 1]) == PresentLength(cs[..k]) + (if cs[k].present then cs[k].length else 0)
  {
    assert cs[..k + 1] == cs[..k] + [cs[k]];
    PresentLengthAppend(cs[..k], [cs[k]]);
    assert [cs[k]][1..] == [];
  }

  /** Present length of a prefix is at most that of a longer prefix. */
  lemma {:induction false} PresentLengthMonotone(cs: seq<Component>, j: nat, k: nat)
    requires j <= k <= |cs|
    ensures PresentLength(cs[..j]) <= PresentLength(cs[..k])
    decreases k - j
  {
    if j < k {
      PresentLengthSnoc(cs, j);
      PresentLengthMonotone(cs, j + 1, k);
    }
  }
}
