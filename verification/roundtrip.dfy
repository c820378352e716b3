/** Loading a file and writing the module back out reproduces the file up to
    the calculated size. */
module RoundTrip {
  import opened Bytes
  import opened Results
  import opened Layout
  import opened Loader
  import opened Serializer

  /** When every present payload fits, so does every prefix of the layout. */
  lemma {:induction false} PrefixesFit(file: seq<byte>, cs: seq<Component>, start: nat, k: nat)
    requires k <= |cs| && start <= |file|
    requires forall j :: 0 <= j < |cs| && cs[j].present ==> start + PresentLength(cs[..j]) + cs[j].length <= |file|
    ensures start + PresentLength(cs[..k]) <= |file|
    decreases k
  {
    if k > 0 {
      PrefixesFit(file, cs, start, k - 1);
      PresentLengthSnoc(cs, k - 1);
    }
  }

  /** One present payload read at an accumulated offset that did not wrap. */
  lemma SliceAt(file: seq<byte>, cs: seq<Component>, start: nat, k: nat)
    requires start + PresentLength(cs) < 0x1_0000_0000
    requires k < |cs| && cs[k].present
    requires cs[k].fileOffset == Wrap32(start + PresentLength(cs[..k]))
    requires cs[k].fileOffset + cs[k].length <= |file|
    requires cs[k].payload == Some(file[cs[k].fileOffset..cs[k].fileOffset + cs[k].length])
    ensures start + PresentLength(cs[..k]) + cs[k].length <= |file|
    ensures cs[k].payload == Some(file[start + PresentLength(cs[..k])..start + PresentLength(cs[..k]) + cs[k].length])
  {
    PresentLengthMonotone(cs, k, |cs|);
    assert cs[..|cs|] == cs;
  }

  /** Present payload `k` is the slice of `file` that starts `start` plus the
      present length before it. */
  ghost predicate SliceAtPoint(file: seq<byte>, cs: seq<Component>, start: nat, k: nat)
    requires k < |cs|
  {
    && start + PresentLength(cs[..k]) + cs[k].length <= |file|
    && cs[k].payload == Some(file[start + PresentLength(cs[..k])..start + PresentLength(cs[..k]) + cs[k].length])
  }

  /** One present payload of a loaded module whose cursor never wrapped. */
  lemma LoadedSliceAt(file: seq<byte>, k: nat)
    requires Load(file).Ok?
    requires Load(file).value.header.length + PresentLength(Load(file).value.components) < 0x1_0000_0000
    requires k < |Load(file).value.components| && Load(file).value.components[k].present
    ensures SliceAtPoint(file, Load(file).value.components, Load(file).value.header.length, k)
  {
    LoadedPayloadAt(file, k);
    LoadedOffsetAt(file, k);
    var m := Load(file).value;
    SliceAt(file, m.components, m.header.length, k);
  }

  /** The payloads of a loaded module whose u32 cursor never wrapped are the
      consecutive slices of the file after the header. */
  lemma LoadedSlices(file: seq<byte>)
    requires Load(file).Ok?
    requires Load(file).value.header.length + PresentLength(Load(file).value.components) < 0x1_0000_0000
    ensures SlicedFrom(file, Load(file).value.components, Load(file).value.header.length)
  {
    LoadedHeaderFits(file);
    var m := Load(file).value;
    forall k | 0 <= k < |m.components| && m.components[k].present
      ensures SliceAtPoint(file, m.components, m.header.length, k)
    {
      LoadedSliceAt(file, k);
    }
    SlicesFromPoints(file, m.components, m.header.length);
  }

  /** The header chunk of a loaded module lies inside the file. */
  lemma LoadedHeaderFits(file: seq<byte>)
    requires Load(file).Ok?
    ensures Load(file).value.header.length <= |file|
  {
    LoadedShape(file);
  }

  /** Payloads that are each the slice after the present ones before them make
      the whole run of present payloads fit in the file. */
  lemma SlicesFromPoints(file: seq<byte>, cs: seq<Component>, start: nat)
    requires start <= |file|
    requires forall k :: 0 <= k < |cs| && cs[k].present ==> SliceAtPoint(file, cs, start, k)
    ensures SlicedFrom(file, cs, start)
  {
    PrefixesFit(file, cs, start, |cs|);
    assert cs[..|cs|] == cs;
  }

  /** The payload of present component `k` of a loaded module. */
  lemma LoadedPayloadAt(file: seq<byte>, k: nat)
    requires Load(file).Ok?
    requires k < |Load(file).value.components| && Load(file).value.components[k].present
    ensures var c := Load(file).value.components[k];
      c.fileOffset + c.length <= |file| && c.payload == Some(file[c.fileOffset..c.fileOffset + c.length])
  {
    LoadedComponentAt(file, k);
  }

  /** The file offset of present component `k` of a loaded module. */
  lemma LoadedOffsetAt(file: seq<byte>, k: nat)
    requires Load(file).Ok?
    requires k < |Load(file).value.components| && Load(file).value.components[k].present
    ensures var m := Load(file).value;
      m.components[k].fileOffset == Wrap32(m.header.length + PresentLength(m.components[..k]))
  {
    LoadedOffsets(file);
  }

  /** Writing a module whose header and payloads are consecutive slices of
      `file` gives back the start of `file`. */
  lemma SerializeSliced(m: Module, file: seq<byte>)
    requires Consistent(m) && Serialize(m).Ok?
    requires m.header.length <= |file| && m.header.raw == file[..m.header.length]
    requires SlicedFrom(file, m.components, m.header.length)
    ensures m.header.length + PresentLength(m.components) <= |file|
    ensures Serialize(m).value == file[..m.header.length + PresentLength(m.components)]
  {
    var cs := m.components;
    var hl := m.header.length;
    assert cs[..0] == [] && cs[0..] == cs;
    WriteComponentsContiguous(file, cs, hl, 0);
    var body := WriteComponents(cs, 0).value;
    assert Serialize(m) == Ok(m.header.raw + body);
    assert file[..hl] + file[hl..hl + PresentLength(cs)] == file[..hl + PresentLength(cs)];
  }

  /** Load, then write: the output is the file up to the calculated size,
      provided the file cursor never wrapped and no present component is empty
      (`write_buffer_to_file` refuses a zero length). */
  lemma LoadSerializeRoundTrip(file: seq<byte>)
    requires Load(file).Ok?
    requires var m := Load(file).value;
      && m.header.length + PresentLength(m.components) < 0x1_0000_0000
      && forall j :: 0 <= j < |m.components| && m.components[j].present ==> m.components[j].length > 0
    ensures var m := Load(file).value;
      && Consistent(m)
      && m.calculatedSize == m.header.length + PresentLength(m.components)
      && m.calculatedSize <= |file|
      && Serialize(m) == Ok(file[..m.calculatedSize])
  {
    LoadedShape(file);
    LoadedComponents(file);
    LoadedOffsets(file);
    LoadedSlices(file);
    var m := Load(file).value;
    assert Wrap32(m.header.length + PresentLength(m.components)) == m.header.length + PresentLength(m.components);
    assert forall j :: 0 <= j < |m.components| ==> Writable(m.components[j]);
    SerializeSliced(m, file);
  }

  /** For a file under 4 GiB the cursor cannot wrap, so loading then writing
      reproduces the file up to the calculated size whenever no present
      component is empty. */
  lemma SmallFileRoundTrip(file: seq<byte>)
    requires Load(file).Ok? && |file| < 0x1_0000_0000
    requires var m := Load(file).value;
      forall j :: 0 <= j < |m.components| && m.components[j].present ==> m.components[j].length > 0
    ensures var m := Load(file).value;
      && m.calculatedSize == m.header.length + PresentLength(m.components)
      && m.calculatedSize <= |file|
      && Serialize(m) == Ok(file[..m.calculatedSize])
  {
    NoWrapUnder4G(file);
    LoadSerializeRoundTrip(file);
  }
}
