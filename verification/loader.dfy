/** Loading a 1B file (`ami_1B_lib.c`, `get_header_info` and `init_1B_data`):
    the file is the byte sequence `file`, and every read of a chunk of it
    (`init_file_chunk_buffer`) is a slice that must lie inside it. */
module Loader {
  import opened Bytes
  import opened Results
  import opened Layout
  import opened Names
  import opened Decoder

  datatype LoadError =
    | FileTooShort
    | BadHeaderInfo
    | HeaderBeyondFile
    | ParseFailed(reason: DecodeError)
    | PayloadBeyondFile(position: nat)

  /** The prologue of the file: component count and header length. */
  datatype HeaderInfo = HeaderInfo(count: u16, headerLength: u16)

  /** The four prologue bytes of a header with `count` entries and `headerLength` bytes. */
  function EncodeHeaderInfo(info: HeaderInfo): (r: seq<byte>)
    ensures |r| == HeaderInfoLength
  {
    [info.count % 0x100, info.count / 0x100, info.headerLength % 0x100, info.headerLength / 0x100]
  }

  /** `get_header_info`: reads the first four bytes and rejects a zero count
      or a zero header length. */
  function GetHeaderInfo(file: seq<byte>): (r: Result<HeaderInfo, LoadError>)
    ensures r == Err(FileTooShort) <==> |file| < HeaderInfoLength
    ensures r == Err(BadHeaderInfo) <==>
      |file| >= HeaderInfoLength && (U16At(file, ComponentCountOffset) == 0 || U16At(file, HeaderLengthOffset) == 0)
    ensures r.Ok? ==> r.value.count > 0 && r.value.headerLength > 0
    ensures r.Ok? ==> r.value == HeaderInfo(U16At(file, ComponentCountOffset), U16At(file, HeaderLengthOffset))
  {
    if |file| < HeaderInfoLength then Err(FileTooShort)
    else
      var count := U16At(file, ComponentCountOffset);
      var headerLength := U16At(file, HeaderLengthOffset);
      if headerLength == 0 || count == 0 then Err(BadHeaderInfo)
      else Ok(HeaderInfo(count, headerLength))
  }

  /** Reading back an encoded prologue gives the same count and length. */
  lemma HeaderInfoRoundTrip(info: HeaderInfo, rest: seq<byte>)
    requires info.count > 0 && info.headerLength > 0
    ensures GetHeaderInfo(EncodeHeaderInfo(info) + rest) == Ok(info)
  {
    var file := EncodeHeaderInfo(info) + rest;
    U16AtBytes(file, ComponentCountOffset);
    U16AtBytes(file, HeaderLengthOffset);
  }

  /** A component with its payload attached: the `length` bytes at its file
      offset when it is present, nothing otherwise. */
  function Attach(file: seq<byte>, c: Component): Component
    requires c.present ==> c.fileOffset + c.length <= |file|
  {
    if c.present then c.(payload := Some(file[c.fileOffset..c.fileOffset + c.length])) else c
  }

  /** The payload of a present component lies inside the file. */
  predicate PayloadInFile(file: seq<byte>, c: Component) {
    c.present ==> c.fileOffset + c.length <= |file|
  }

  /** The payload-reading loop of `init_1B_data` from entry `i` on: stops at
      the first present component whose payload is not inside the file. */
  function LoadPayloads(file: seq<byte>, cs: seq<Component>, i: nat): (r: Result<seq<Component>, LoadError>)
    requires i <= |cs|
    decreases |cs| - i
    ensures r.Ok? <==> forall j :: i <= j < |cs| ==> PayloadInFile(file, cs[j])
    ensures r.Ok? ==> |r.value| == |cs| - i
    ensures r.Ok? ==> forall k :: 0 <= k < |r.value| ==> r.value[k] == Attach(file, cs[i + k])
    ensures r.Err? ==>
      && r.error.PayloadBeyondFile?
      && i <= r.error.position < |cs|
      && !PayloadInFile(file, cs[r.error.position])
      && forall j :: i <= j < r.error.position ==> PayloadInFile(file, cs[j])
  {
    if i == |cs| then Ok([])
    else if !PayloadInFile(file, cs[i]) then Err(PayloadBeyondFile(i))
    else
      match LoadPayloads(file, cs, i + 1)
      case Err(e) => Err(e)
      case Ok(rest) =>
        assert forall k :: 1 <= k < |rest| + 1 ==> ([Attach(file, cs[i])] + rest)[k] == rest[k - 1];
        Ok([Attach(file, cs[i])] + rest)
  }

  /** `init_1B_data`: the prologue, the header chunk, `parse_header`, then the
      payload of every present component. */
  function Load(file: seq<byte>): (r: Result<Module, LoadError>)
    ensures r.Ok? ==>
      && r.value.size == |file|
      && 0 < r.value.header.length <= |file|
      && r.value.header.raw == file[..r.value.header.length]
      && |r.value.components| == r.value.header.count
    ensures r.Err? && r.error.PayloadBeyondFile? ==>
      && |file| >= HeaderInfoLength
      && 0 < CountOf(file) <= MaxComponent && 0 < HeaderLengthOf(file) <= |file|
      && r.error.position < CountOf(file)
  {
    match GetHeaderInfo(file)
    case Err(e) => Err(e)
    case Ok(info) =>
      if info.headerLength > |file| then Err(HeaderBeyondFile)
      else
        match ParseHeader(file[..info.headerLength], info.headerLength, info.count)
        case Err(e) => Err(ParseFailed(e))
        case Ok(p) =>
          match LoadPayloads(file, p.components, 0)
          case Err(e) => Err(e)
          case Ok(cs) => Ok(Module(|file|, p.calculatedSize, p.header, cs))
  }

  /** The header fields of the file, as `Load` reads them. */
  function CountOf(file: seq<byte>): u16 {
    U16At(file, ComponentCountOffset)
  }

  function HeaderLengthOf(file: seq<byte>): u16 {
    U16At(file, HeaderLengthOffset)
  }

  /** Every way `init_1B_data` can fail, in the order it checks them. */
  lemma LoadFailures(file: seq<byte>)
    ensures Load(file) == Err(FileTooShort) <==> |file| < HeaderInfoLength
    ensures Load(file) == Err(BadHeaderInfo) <==>
      |file| >= HeaderInfoLength && (CountOf(file) == 0 || HeaderLengthOf(file) == 0)
    ensures Load(file) == Err(HeaderBeyondFile) <==>
      |file| >= HeaderInfoLength && CountOf(file) > 0 && HeaderLengthOf(file) > |file|
    ensures Load(file) == Err(ParseFailed(TooManyComponents)) <==>
      |file| >= HeaderInfoLength && CountOf(file) > MaxComponent && 0 < HeaderLengthOf(file) <= |file|
    ensures Load(file) != Err(ParseFailed(InvalidHeaderInfo))
  {
  }

  /** Once the header is parsed, `init_1B_data` fails exactly when the payload
      of some present component lies outside the file, and it then names the
      first such component. */
  lemma LoadPayloadFailure(file: seq<byte>)
    requires |file| >= HeaderInfoLength
    requires 0 < CountOf(file) <= MaxComponent && 0 < HeaderLengthOf(file) <= |file|
    ensures var p := ParseHeader(file[..HeaderLengthOf(file)], HeaderLengthOf(file), CountOf(file));
      && p.Ok?
      && (Load(file).Ok? <==> forall j :: 0 <= j < |p.value.components| ==> PayloadInFile(file, p.value.components[j]))
      && (Load(file).Err? ==>
            && Load(file).error.PayloadBeyondFile?
            && Load(file).error.position < |p.value.components|
            && !PayloadInFile(file, p.value.components[Load(file).error.position])
            && forall j :: 0 <= j < Load(file).error.position ==> PayloadInFile(file, p.value.components[j]))
  {
    assert GetHeaderInfo(file) == Ok(HeaderInfo(CountOf(file), HeaderLengthOf(file)));
  }

  /** The steps a successful `Load` went through. */
  lemma LoadSteps(file: seq<byte>)
    requires Load(file).Ok?
    ensures |file| >= HeaderInfoLength && 0 < HeaderLengthOf(file) <= |file|
    ensures var raw := file[..HeaderLengthOf(file)];
      var parsed := ParseHeader(raw, HeaderLengthOf(file), CountOf(file));
      && parsed.Ok?
      && LoadPayloads(file, parsed.value.components, 0).Ok?
      && Load(file).value ==
           Module(|file|, parsed.value.calculatedSize, parsed.value.header,
                  LoadPayloads(file, parsed.value.components, 0).value)
  {
  }

  /** A loaded module: sizes, header fields and header bytes. */
  lemma LoadedShape(file: seq<byte>)
    requires Load(file).Ok?
    ensures var m := Load(file).value;
      && Consistent(m)
      && m.size == |file|
      && m.header.count == CountOf(file) && 0 < m.header.count <= MaxComponent
      && m.header.length == HeaderLengthOf(file) && m.header.raw == file[..m.header.length]
  {
    LoadSteps(file);
    var m := Load(file).value;
    var raw := file[..HeaderLengthOf(file)];
    var p := ParseHeader(raw, HeaderLengthOf(file), CountOf(file)).value;
    var cs := LoadPayloads(file, p.components, 0).value;
    assert m.components == cs && m.header == p.header;
    assert p.header.raw == raw && p.header.length == HeaderLengthOf(file) && p.header.count == CountOf(file);
    assert |cs| == |p.components| == CountOf(file);
    forall i | 0 <= i < |cs| && cs[i].payload.Some?
      ensures |cs[i].payload.value| == cs[i].length
    {
      assert cs[i] == Attach(file, p.components[i]);
      assert p.components[i].payload.None?;
    }
  }

  /** Entry `i` of a loaded module: decoded from the header bytes, present
      exactly when it holds a payload, and that payload is the file slice at
      its offset. */
  ghost predicate LoadedEntry(file: seq<byte>, m: Module, i: nat)
    requires i < |m.components|
  {
    && FieldsDecoded(m.header.raw, i, m.components[i].(payload := None))
    && m.components[i].name == EntryName(m.header.raw, LocateStrings(m.header.raw, m.header.length, m.header.count), i)
    && (m.components[i].present <==> m.components[i].payload.Some?)
    && (m.components[i].present ==>
          && m.components[i].fileOffset + m.components[i].length <= |file|
          && m.components[i].payload.value ==
               file[m.components[i].fileOffset..m.components[i].fileOffset + m.components[i].length])
  }

  /** One entry of a loaded module. */
  lemma LoadedComponentAt(file: seq<byte>, i: nat)
    requires Load(file).Ok? && i < |Load(file).value.components|
    ensures LoadedEntry(file, Load(file).value, i)
  {
    LoadSteps(file);
    var raw := file[..HeaderLengthOf(file)];
    var p := ParseHeader(raw, HeaderLengthOf(file), CountOf(file)).value;
    ParsedTable(raw, HeaderLengthOf(file), CountOf(file));
    var m := Load(file).value;
    assert m.header == p.header && m.components[i] == Attach(file, p.components[i]);
  }

  /** A loaded module: every table entry decoded from the header bytes, every
      present payload the slice of the file at the component's offset. */
  lemma LoadedComponents(file: seq<byte>)
    requires Load(file).Ok?
    ensures var m := Load(file).value;
      forall i :: 0 <= i < |m.components| ==> LoadedEntry(file, m, i)
  {
    var m := Load(file).value;
    forall i | 0 <= i < |m.components|
      ensures LoadedEntry(file, m, i)
    {
      LoadedComponentAt(file, i);
    }
  }

  /** A loaded module: present payloads follow the header back to back, and
      the calculated size is where the last one ends, in u32. */
  lemma LoadedOffsets(file: seq<byte>)
    requires Load(file).Ok?
    ensures var m := Load(file).value;
      && OffsetsAccumulate(m.components, m.header.length)
      && m.calculatedSize == Wrap32(m.header.length + PresentLength(m.components))
  {
    LoadSteps(file);
    var raw := file[..HeaderLengthOf(file)];
    var p := ParseHeader(raw, HeaderLengthOf(file), CountOf(file)).value;
    ParsedOffsets(raw, HeaderLengthOf(file), CountOf(file));
    var m := Load(file).value;
    assert forall i :: 0 <= i < |m.components| ==> m.components[i] == Attach(file, p.components[i]);
    OffsetsIgnorePayloads(p.components, m.components, HeaderLengthOf(file));
  }

  /** The offset layout and calculated size of a successful parse. */
  lemma ParsedOffsets(raw: seq<byte>, headerLen: u16, count: u16)
    requires |raw| == headerLen
    requires ParseHeader(raw, headerLen, count).Ok?
    ensures var p := ParseHeader(raw, headerLen, count).value;
      && OffsetsAccumulate(p.components, headerLen)
      && p.calculatedSize == Wrap32(headerLen + PresentLength(p.components))
  {
    ParsedTable(raw, headerLen, count);
  }

  /** A file under 4 GiB never wraps the u32 file cursor: every present
      payload it loads ends inside the file, at an unwrapped offset. */
  lemma NoWrapUnder4G(file: seq<byte>)
    requires Load(file).Ok? && |file| < 0x1_0000_0000
    ensures var m := Load(file).value;
      m.header.length + PresentLength(m.components) < 0x1_0000_0000
  {
    LoadedOffsets(file);
    var m := Load(file).value;
    forall j | 0 <= j < |m.components|
      ensures PayloadInFile(file, m.components[j])
    {
      LoadedComponentAt(file, j);
    }
    PrefixesDoNotWrap(file, m.components, m.header.length, |m.components|);
    assert m.components[..|m.components|] == m.components;
  }

  /** The cursor after the first `k` components stays below 2^32 when every
      present payload, read at its accumulated offset, ends inside a file
      under 4 GiB. */
  lemma {:induction false} PrefixesDoNotWrap(file: seq<byte>, cs: seq<Component>, start: u16, k: nat)
    requires |file| < 0x1_0000_0000 && k <= |cs|
    requires OffsetsAccumulate(cs, start)
    requires forall j :: 0 <= j < |cs| ==> PayloadInFile(file, cs[j])
    ensures start + PresentLength(cs[..k]) < 0x1_0000_0000
    decreases k
  {
    if k > 0 {
      PrefixesDoNotWrap(file, cs, start, k - 1);
      PresentLengthSnoc(cs, k - 1);
      if cs[k - 1].present {
        assert PayloadInFile(file, cs[k - 1]);
        assert cs[k - 1].fileOffset == start + PresentLength(cs[..k - 1]);
      }
    }
  }

  /** Attaching payloads changes no offset, presence or length. */
  lemma OffsetsIgnorePayloads(a: seq<Component>, b: seq<Component>, start: nat)
    requires |a| == |b|
    requires forall i :: 0 <= i < |a| ==> b[i] == a[i].(payload := b[i].payload)
    requires OffsetsAccumulate(a, start)
    ensures OffsetsAccumulate(b, start)
    ensures PresentLength(a) == PresentLength(b)
  {
    forall k | 0 <= k <= |a|
      ensures PresentLength(a[..k]) == PresentLength(b[..k])
    {
      PresentLengthPointwise(a[..k], b[..k]);
    }
    assert a[..|a|] == a && b[..|b|] == b;
  }

  /** Two lists with the same presence and lengths have the same present length. */
  lemma {:induction false} PresentLengthPointwise(a: seq<Component>, b: seq<Component>)
    requires |a| == |b|
    requires forall i :: 0 <= i < |a| ==> a[i].present == b[i].present && a[i].length == b[i].length
    ensures PresentLength(a) == PresentLength(b)
  {
    if a != [] {
      PresentLengthPointwise(a[1..], b[1..]);
    }
  }

  /** Whenever the table lies inside the header buffer, a loaded module's
      header agrees with its components. */
  lemma LoadedHeaderAgrees(file: seq<byte>)
    requires Load(file).Ok?
    requires TableEnd(Load(file).value.header.count) <= Load(file).value.header.length
    ensures HeaderAgrees(Load(file).value)
  {
    LoadedShape(file);
    LoadedComponents(file);
    var m := Load(file).value;
    forall i | 0 <= i < |m.components|
      ensures LengthField(m.header.raw, i) == EncodedLength(m.components[i])
    {
      LoadedComponentAt(file, i);
      DecodedLengthEncodes(m.header.raw, i, m.components[i].(payload := None));
    }
  }
}
