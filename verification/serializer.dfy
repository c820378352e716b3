/** Writing a module back out (`ami_1B_lib.c`, `write_1B_data_to_file` and
    `write_buffer_to_file`): the header buffer, then the payload of every
    present component in table order. The output file is the byte sequence
    the writes produce. */
module Serializer {
  import opened Bytes
  import opened Results
  import opened Layout

  /** Why `write_1B_data_to_file` stopped, with what the destination file
      holds at that point: nothing is opened for `ModuleEmpty`; the freshly
      truncated file is empty for `HeaderWriteFailed`; for
      `ComponentWriteFailed` it holds `written`, the header and what the loop
      wrote before the failing component (whose own write fails before any
      byte goes out). */
  datatype WriteError =
    | ModuleEmpty
    | HeaderWriteFailed
    | ComponentWriteFailed(position: nat, written: seq<byte>)

  /** `write_buffer_to_file` refuses a NULL buffer and a zero length, so a
      present component can be written only when it holds a non-empty payload. */
  predicate Writable(c: Component) {
    c.present ==> c.payload.Some? && c.length > 0
  }

  /** Every payload buffer holds as many bytes as its component's length. */
  ghost predicate PayloadsSized(cs: seq<Component>) {
    forall j :: 0 <= j < |cs| && cs[j].payload.Some? ==> |cs[j].payload.value| == cs[j].length
  }

  /** The bytes the loop writes for one entry. */
  function Written(c: Component): seq<byte>
    requires Writable(c)
  {
    if c.present then c.payload.value else []
  }

  /** The payloads of the present components of `cs`, in table order; absent
      components contribute nothing. */
  function PresentPayloads(cs: seq<Component>): seq<byte>
    requires forall j :: 0 <= j < |cs| ==> Writable(cs[j])
  {
    if cs == [] then []
    else
      assert Writable(cs[0]);
      Written(cs[0]) + PresentPayloads(cs[1..])
  }

  /** The component loop of `write_1B_data_to_file` from entry `i` on; a
      failure reports the position of the component that cannot be written. */
  function WriteComponents(cs: seq<Component>, i: nat): (r: Result<seq<byte>, nat>)
    requires i <= |cs| && PayloadsSized(cs)
    decreases |cs| - i
    ensures r.Ok? <==> forall j :: i <= j < |cs| ==> Writable(cs[j])
    ensures r.Ok? ==> |r.value| == PresentLength(cs[i..])
    ensures r.Err? ==>
      && i <= r.error < |cs|
      && !Writable(cs[r.error])
      && forall j :: i <= j < r.error ==> Writable(cs[j])
  {
    if i == |cs| then Ok([])
    else if !Writable(cs[i]) then Err(i)
    else
      assert cs[i..][1..] == cs[i + 1..];
      match WriteComponents(cs, i + 1)
      case Err(e) => Err(e)
      case Ok(rest) => Ok(Written(cs[i]) + rest)
  }

  /** `write_1B_data_to_file`: refuses a module whose calculated size or file
      size is zero, then writes the header and the present payloads. A failed
      component write leaves the header and the payloads before it behind. */
  function Serialize(m: Module): (r: Result<seq<byte>, WriteError>)
    requires Consistent(m)
    ensures r == Err(ModuleEmpty) <==> m.calculatedSize == 0 || m.size == 0
    ensures r == Err(HeaderWriteFailed) <==> m.calculatedSize != 0 && m.size != 0 && m.header.length == 0
    ensures r.Ok? <==>
      && m.calculatedSize != 0 && m.size != 0 && m.header.length != 0
      && forall j :: 0 <= j < |m.components| ==> Writable(m.components[j])
    ensures r.Ok? ==>
      && |r.value| == m.header.length + PresentLength(m.components)
      && r.value[..m.header.length] == m.header.raw
    ensures r.Err? && r.error.ComponentWriteFailed? ==>
      && r.error.position < |m.components|
      && !Writable(m.components[r.error.position])
      && forall j :: 0 <= j < r.error.position ==> Writable(m.components[j])
  {
    if m.calculatedSize == 0 || m.size == 0 then Err(ModuleEmpty)
    else if m.header.length == 0 then Err(HeaderWriteFailed)
    else
      assert m.components[0..] == m.components;
      match WriteComponents(m.components, 0)
      case Err(position) =>
        var before := m.components[..position];
        assert PayloadsSized(before) && before[0..] == before;
        assert forall j :: 0 <= j < |before| ==> Writable(before[j]);
        Err(ComponentWriteFailed(position, m.header.raw + WriteComponents(before, 0).value))
      case Ok(body) => Ok(m.header.raw + body)
  }

  /** One unfolding of the component loop. */
  lemma WriteComponentsStep(cs: seq<Component>, i: nat)
    requires i < |cs| && PayloadsSized(cs) && WriteComponents(cs, i).Ok?
    ensures Writable(cs[i]) && WriteComponents(cs, i + 1).Ok?
    ensures WriteComponents(cs, i).value == Written(cs[i]) + WriteComponents(cs, i + 1).value
  {
  }

  /** After a failed component write the destination holds the header bytes
      and the present payloads before the failing component. */
  lemma SerializeFailureWritten(m: Module)
    requires Consistent(m) && Serialize(m).Err? && Serialize(m).error.ComponentWriteFailed?
    ensures var e := Serialize(m).error;
      && m.calculatedSize != 0 && m.size != 0 && m.header.length != 0
      && e.position < |m.components|
      && (forall j :: 0 <= j < |m.components[..e.position]| ==> Writable(m.components[..e.position][j]))
      && e.written == m.header.raw + PresentPayloads(m.components[..e.position])
  {
    var e := Serialize(m).error;
    var before := m.components[..e.position];
    assert m.components[0..] == m.components;
    assert PayloadsSized(before) && before[0..] == before;
    WriteComponentsIsPayloads(before, 0);
  }

  /** The component loop writes exactly the present payloads, in table order. */
  lemma {:induction false} WriteComponentsIsPayloads(cs: seq<Component>, i: nat)
    requires i <= |cs| && PayloadsSized(cs) && WriteComponents(cs, i).Ok?
    ensures forall j :: 0 <= j < |cs[i..]| ==> Writable(cs[i..][j])
    ensures WriteComponents(cs, i).value == PresentPayloads(cs[i..])
    decreases |cs| - i
  {
    if i < |cs| {
      WriteComponentsStep(cs, i);
      WriteComponentsIsPayloads(cs, i + 1);
      assert cs[i..][1..] == cs[i + 1..];
    }
  }

  /** The written file is the header buffer followed by the present payloads
      in table order. */
  lemma SerializeIsHeaderThenPayloads(m: Module)
    requires Consistent(m) && Serialize(m).Ok?
    ensures forall j :: 0 <= j < |m.components| ==> Writable(m.components[j])
    ensures Serialize(m).value == m.header.raw + PresentPayloads(m.components)
  {
    assert m.components[0..] == m.components;
    WriteComponentsIsPayloads(m.components, 0);
  }

  /** A slice of `rest` is found `|head|` further on in `head + rest`. */
  lemma ShiftedSlice(head: seq<byte>, rest: seq<byte>, at: nat, len: nat)
    requires at + len <= |rest|
    ensures (head + rest)[|head| + at..|head| + at + len] == rest[at..at + len]
  {
  }

  /** Present component `k` of the written entries `i..` lands right after the
      present payloads before it. */
  lemma {:induction false} WriteComponentsPlacement(cs: seq<Component>, i: nat, k: nat)
    requires i <= k < |cs| && PayloadsSized(cs)
    requires WriteComponents(cs, i).Ok? && cs[k].present
    ensures var out := WriteComponents(cs, i).value;
      var at := PresentLength(cs[i..k]);
      at + cs[k].length <= |out| && out[at..at + cs[k].length] == cs[k].payload.value
    decreases k - i
  {
    WriteComponentsStep(cs, i);
    var head := Written(cs[i]);
    var rest := WriteComponents(cs, i + 1).value;
    if i == k {
      assert cs[i..k] == [];
    } else {
      WriteComponentsPlacement(cs, i + 1, k);
      assert cs[i..k][1..] == cs[i + 1..k];
      assert |head| == (if cs[i].present then cs[i].length else 0);
      assert PresentLength(cs[i..k]) == |head| + PresentLength(cs[i + 1..k]);
      ShiftedSlice(head, rest, PresentLength(cs[i + 1..k]), cs[k].length);
    }
  }

  /** In the written file, each present payload starts after the header and
      the present payloads before it. */
  lemma SerializedPlacement(m: Module, k: nat)
    requires Consistent(m) && Serialize(m).Ok?
    requires k < |m.components| && m.components[k].present
    ensures var out := Serialize(m).value;
      var at := m.header.length + PresentLength(m.components[..k]);
      at + m.components[k].length <= |out| && out[at..at + m.components[k].length] == m.components[k].payload.value
  {
    var cs := m.components;
    assert cs[0..] == cs && cs[0..k] == cs[..k];
    WriteComponentsPlacement(cs, 0, k);
    var out := Serialize(m).value;
    var body := WriteComponents(cs, 0).value;
    assert out == m.header.raw + body;
    var at := PresentLength(cs[..k]);
    assert out[m.header.length + at..m.header.length + at + cs[k].length] == body[at..at + cs[k].length];
  }

  /** When the offsets follow the layout and the u32 cursor never wrapped, each
      present payload is written at the component's file offset. */
  lemma SerializedAtFileOffsets(m: Module, k: nat)
    requires Consistent(m) && Serialize(m).Ok?
    requires OffsetsAccumulate(m.components, m.header.length)
    requires m.header.length + PresentLength(m.components) < 0x1_0000_0000
    requires k < |m.components| && m.components[k].present
    ensures var out := Serialize(m).value;
      var c := m.components[k];
      c.fileOffset + c.length <= |out| && out[c.fileOffset..c.fileOffset + c.length] == c.payload.value
  {
    var cs := m.components;
    SerializedPlacement(m, k);
    PresentLengthMonotone(cs, k, |cs|);
    assert cs[..|cs|] == cs;
  }

  /** The payloads of present entries `i..` are consecutive slices of `file`
      starting at `start` plus the present length before them. */
  ghost predicate SlicedFrom(file: seq<byte>, cs: seq<Component>, start: nat) {
    && start + PresentLength(cs) <= |file|
    && forall k :: 0 <= k < |cs| && cs[k].present ==>
         && start + PresentLength(cs[..k]) + cs[k].length <= |file|
         && cs[k].payload == Some(file[start + PresentLength(cs[..k])..start + PresentLength(cs[..k]) + cs[k].length])
  }

  /** The present lengths of a prefix and the matching suffix add up. */
  lemma PresentLengthSplit(cs: seq<Component>, i: nat)
    requires i <= |cs|
    ensures PresentLength(cs[..i]) + PresentLength(cs[i..]) == PresentLength(cs)
  {
    PresentLengthAppend(cs[..i], cs[i..]);
    assert cs[..i] + cs[i..] == cs;
  }

  /** Two adjacent slices make up the slice that spans them. */
  lemma AdjacentSlices(file: seq<byte>, from: nat, mid: nat, end: nat)
    requires from <= mid <= end <= |file|
    ensures file[from..mid] + file[mid..end] == file[from..end]
  {
  }

  /** Writing such entries reproduces the slice of `file` they came from. */
  lemma {:induction false} WriteComponentsContiguous(file: seq<byte>, cs: seq<Component>, start: nat, i: nat)
    requires i <= |cs| && PayloadsSized(cs) && SlicedFrom(file, cs, start)
    requires WriteComponents(cs, i).Ok?
    ensures var from := start + PresentLength(cs[..i]);
      from + PresentLength(cs[i..]) <= |file|
      && WriteComponents(cs, i).value == file[from..from + PresentLength(cs[i..])]
    decreases |cs| - i
  {
    PresentLengthSplit(cs, i);
    if i == |cs| {
      assert cs[i..] == [];
    } else {
      var from := start + PresentLength(cs[..i]);
      PresentLengthCons(cs, i);
      PresentLengthSnoc(cs, i);
      WriteComponentsStep(cs, i);
      WriteComponentsContiguous(file, cs, start, i + 1);
      var next := start + PresentLength(cs[..i + 1]);
      var end := next + PresentLength(cs[i + 1..]);
      if cs[i].present {
        AdjacentSlices(file, from, next, end);
      }
    }
  }
}
