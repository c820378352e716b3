/** Queries on a loaded module (`ami_1B_lib.c`, `get_component_count`,
    `get_component_from_position`, `get_component_from_file_offset` and
    `is_component_data_present`). A component is designated by its position
    in the table where the source hands out a pointer into that table. */
module Accessors {
  import opened Bytes
  import opened Results
  import opened Layout
  import opened Loader

  /** `get_component_count`: the number of table entries, absent ones included. */
  function ComponentCount(m: Module): (r: u16)
    ensures Consistent(m) ==> r == |m.components|
  {
    m.header.count
  }

  /** `get_component_from_position`; a position past the table has no component. */
  function ComponentAt(m: Module, position: nat): (r: Option<Component>)
    ensures r.Some? <==> position < |m.components|
    ensures r.Some? ==> r.value == m.components[position]
  {
    if position < |m.components| then Some(m.components[position]) else None
  }

  /** `is_component_data_present`; no component counts as absent. */
  function IsComponentDataPresent(c: Option<Component>): (r: bool)
    ensures r <==> c.Some? && c.value.present
  {
    match c
    case None => false
    case Some(c) => c.present
  }

  /** The search loop of `get_component_from_file_offset` from entry `i` on:
      the first entry whose file offset equals `offset`. */
  function FindFileOffset(cs: seq<Component>, offset: int, i: nat): (r: Option<nat>)
    requires i <= |cs|
    decreases |cs| - i
    ensures r.Some? ==> i <= r.value < |cs| && cs[r.value].fileOffset == offset
    ensures r.Some? ==> forall j :: i <= j < r.value ==> cs[j].fileOffset != offset
    ensures r.None? ==> forall j :: i <= j < |cs| ==> cs[j].fileOffset != offset
  {
    if i == |cs| then None
    else if cs[i].fileOffset == offset then Some(i)
    else FindFileOffset(cs, offset, i + 1)
  }

  /** `get_component_from_file_offset`: the position of the first component,
      present or not, recorded at `offset`. */
  function ComponentAtFileOffset(m: Module, offset: int): (r: Option<nat>)
    requires |m.components| == m.header.count
    ensures r.Some? ==> r.value < m.header.count && m.components[r.value].fileOffset == offset
    ensures r.Some? ==> forall j :: 0 <= j < r.value ==> m.components[j].fileOffset != offset
    ensures r.None? ==> forall j :: 0 <= j < m.header.count ==> m.components[j].fileOffset != offset
  {
    FindFileOffset(m.components, offset, 0)
  }

  /** The count of a loaded module is the first field of the file. */
  lemma LoadedCount(file: seq<byte>)
    requires Load(file).Ok?
    ensures ComponentCount(Load(file).value) == CountOf(file)
    ensures ComponentCount(Load(file).value) == |Load(file).value.components|
  {
    LoadedShape(file);
  }

  /** In a loaded module, a component is reported present exactly when bit 31
      of its table entry's length word is set. */
  lemma LoadedPresence(file: seq<byte>, position: nat)
    requires Load(file).Ok?
    ensures var m := Load(file).value;
      IsComponentDataPresent(ComponentAt(m, position)) <==>
        position < m.header.count && LengthField(m.header.raw, position) >= PresentBit
  {
    LoadedShape(file);
    if position < |Load(file).value.components| {
      LoadedComponentAt(file, position);
    }
  }

  /** In a loaded module whose file cursor never wrapped, the lookup by file
      offset finds a present component at its own offset, as long as no
      present component before it is empty (an empty one shares the offset
      of the next present one and is found first). */
  lemma FindLoadedComponent(file: seq<byte>, k: nat)
    requires Load(file).Ok?
    requires var m := Load(file).value;
      && m.header.length + PresentLength(m.components) < 0x1_0000_0000
      && k < |m.components| && m.components[k].present
      && forall j :: 0 <= j < k && m.components[j].present ==> m.components[j].length > 0
    ensures var m := Load(file).value;
      ComponentAtFileOffset(m, m.components[k].fileOffset) == Some(k)
  {
    LoadedShape(file);
    LoadedOffsets(file);
    var m := Load(file).value;
    var cs := m.components;
    var hl := m.header.length;
    PresentLengthMonotone(cs, k, |cs|);
    assert cs[..|cs|] == cs;
    forall j | 0 <= j < k
      ensures cs[j].fileOffset != cs[k].fileOffset
    {
      if cs[j].present {
        PresentLengthSnoc(cs, j);
        PresentLengthMonotone(cs, j + 1, k);
      }
    }
  }
}
