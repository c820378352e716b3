/** Changing a loaded module (`ami_1B_lib.c`, `update_header_data` and
    `replace_component_data`): the length words of the header buffer are
    brought in line with the component table, and a payload is swapped. */
module Mutator {
  import opened Bytes
  import opened Results
  import opened Layout

  /** `update_header_data` stores a new word for `c` exactly when the entry is
      present and the word, with bit 31 forced on, differs from the length. */
  predicate Rewrites(word: u32, c: Component) {
    c.present && SetPresent(word) != c.length
  }

  /** The word an entry holds once `update_header_data` has visited it. */
  function PatchedWord(word: u32, c: Component): u32 {
    if Rewrites(word, c) then SetPresent(c.length) else word
  }

  /** `q` is one of the four bytes of the length word of entry `j`. */
  predicate InLengthWord(q: int, j: nat) {
    LengthOffset(j) <= q < LengthOffset(j) + 4
  }

  /** `q` belongs to the length word of a present entry of `cs` that fits in a
      buffer of `n` bytes: the only bytes `update_header_data` may store to. */
  ghost predicate Touched(cs: seq<Component>, n: nat, q: int) {
    exists j :: 0 <= j < |cs| && cs[j].present && LengthOffset(j) + 4 <= n && InLengthWord(q, j)
  }

  /** The visit of entry `i` by `update_header_data`. */
  function UpdateEntry(raw: seq<byte>, c: Component, i: nat): (r: seq<byte>)
    ensures |r| == |raw|
  {
    if Rewrites(LengthField(raw, i), c) then WriteU32(raw, LengthOffset(i), SetPresent(c.length)) else raw
  }

  /** The loop of `update_header_data` from entry `i` on. */
  function UpdateFrom(raw: seq<byte>, cs: seq<Component>, i: nat): (r: seq<byte>)
    requires i <= |cs|
    decreases |cs| - i
    ensures |r| == |raw|
  {
    if i == |cs| then raw else UpdateFrom(UpdateEntry(raw, cs[i], i), cs, i + 1)
  }

  /** `update_header_data`: only the header buffer changes. */
  function UpdateHeaderData(m: Module): (r: Module)
    requires |m.components| == m.header.count
    ensures r.size == m.size && r.calculatedSize == m.calculatedSize && r.components == m.components
    ensures r.header.(raw := m.header.raw) == m.header
    ensures |r.header.raw| == |m.header.raw|
  {
    m.(header := m.header.(raw := UpdateFrom(m.header.raw, m.components, 0)))
  }

  /** What a visited entry ends up holding: absent entries keep their word;
      present ones get their length with bit 31 set, except when the length
      itself has bit 31 set and equals the stored word with bit 31 forced on. */
  lemma PatchedWordValue(word: u32, c: Component)
    ensures !c.present ==> PatchedWord(word, c) == word
    ensures c.present && (word >= PresentBit || c.length < PresentBit) ==> PatchedWord(word, c) == EncodedLength(c)
    ensures c.present && c.length >= PresentBit && word == c.length - PresentBit ==> PatchedWord(word, c) == word
    ensures PatchedWord(PatchedWord(word, c), c) == PatchedWord(word, c)
  {
  }

  /** An entry whose word already encodes its component is left alone. */
  lemma PatchedWordStable(c: Component)
    ensures PatchedWord(EncodedLength(c), c) == EncodedLength(c)
  {
  }

  /** Bytes outside the length words of present entries are never stored to,
      and neither is a word that does not fit inside the buffer. */
  lemma {:induction false} UpdateFromFrame(raw: seq<byte>, cs: seq<Component>, i: nat, q: nat)
    requires i <= |cs| && q < |raw|
    requires forall j :: i <= j < |cs| && cs[j].present && LengthOffset(j) + 4 <= |raw| ==> !InLengthWord(q, j)
    ensures UpdateFrom(raw, cs, i)[q] == raw[q]
    decreases |cs| - i
  {
    if i < |cs| {
      var next := UpdateEntry(raw, cs[i], i);
      assert next[q] == raw[q];
      UpdateFromFrame(next, cs, i + 1, q);
    }
  }

  /** The length word of every entry that fits holds its patched value. */
  lemma {:induction false} UpdateFromWord(raw: seq<byte>, cs: seq<Component>, i: nat, j: nat)
    requires i <= j < |cs| && LengthOffset(j) + 4 <= |raw|
    ensures LengthField(UpdateFrom(raw, cs, i), j) == PatchedWord(LengthField(raw, j), cs[j])
    decreases |cs| - i
  {
    var next := UpdateEntry(raw, cs[i], i);
    if i == j {
      var p := LengthOffset(j);
      UpdateFromFrame(next, cs, i + 1, p);
      UpdateFromFrame(next, cs, i + 1, p + 1);
      UpdateFromFrame(next, cs, i + 1, p + 2);
      UpdateFromFrame(next, cs, i + 1, p + 3);
      SameBytesSameWord(UpdateFrom(next, cs, i + 1), next, p);
    } else {
      UpdateFromWord(next, cs, i + 1, j);
      assert SameWordBytes(next, raw, LengthOffset(j));
      SameBytesSameWord(next, raw, LengthOffset(j));
    }
  }

  /** Two buffers of the same size that agree outside the touched words and on
      every touched word are equal. */
  lemma SameWordsSameBuffer(a: seq<byte>, b: seq<byte>, cs: seq<Component>)
    requires |a| == |b|
    requires forall q :: 0 <= q < |a| && !Touched(cs, |a|, q) ==> a[q] == b[q]
    requires forall j :: 0 <= j < |cs| && cs[j].present && LengthOffset(j) + 4 <= |a| ==>
      LengthField(a, j) == LengthField(b, j)
    ensures a == b
  {
    forall q | 0 <= q < |a|
      ensures a[q] == b[q]
    {
      if Touched(cs, |a|, q) {
        var j :| 0 <= j < |cs| && cs[j].present && LengthOffset(j) + 4 <= |a| && InLengthWord(q, j);
        EqualWordsEqualBytes(a, b, LengthOffset(j));
      }
    }
  }

  /** A buffer every present word of which is already patched is a fixed
      point of the loop. */
  lemma UpdateFixes(raw: seq<byte>, cs: seq<Component>)
    requires forall j :: 0 <= j < |cs| && LengthOffset(j) + 4 <= |raw| ==>
      PatchedWord(LengthField(raw, j), cs[j]) == LengthField(raw, j)
    ensures UpdateFrom(raw, cs, 0) == raw
  {
    var r := UpdateFrom(raw, cs, 0);
    forall q | 0 <= q < |r| && !Touched(cs, |r|, q)
      ensures r[q] == raw[q]
    {
      UpdateFromFrame(raw, cs, 0, q);
    }
    forall j | 0 <= j < |cs| && cs[j].present && LengthOffset(j) + 4 <= |r|
      ensures LengthField(r, j) == LengthField(raw, j)
    {
      UpdateFromWord(raw, cs, 0, j);
    }
    SameWordsSameBuffer(r, raw, cs);
  }

  /** `update_header_data` stores only to the length words of present entries. */
  lemma UpdateHeaderFrame(m: Module, q: nat)
    requires |m.components| == m.header.count
    requires q < |m.header.raw| && !Touched(m.components, |m.header.raw|, q)
    ensures UpdateHeaderData(m).header.raw[q] == m.header.raw[q]
  {
    UpdateFromFrame(m.header.raw, m.components, 0, q);
  }

  /** After `update_header_data`, the word of each entry inside the buffer is
      its patched value; for a present entry whose length fits in 31 bits that
      is the length with bit 31 set, for an absent one the word is unchanged. */
  lemma UpdateHeaderWord(m: Module, j: nat)
    requires |m.components| == m.header.count
    requires j < |m.components| && LengthOffset(j) + 4 <= |m.header.raw|
    ensures LengthField(UpdateHeaderData(m).header.raw, j) ==
      PatchedWord(LengthField(m.header.raw, j), m.components[j])
    ensures m.components[j].present && m.components[j].length < PresentBit ==>
      LengthField(UpdateHeaderData(m).header.raw, j) == SetPresent(m.components[j].length)
    ensures !m.components[j].present ==>
      LengthField(UpdateHeaderData(m).header.raw, j) == LengthField(m.header.raw, j)
  {
    UpdateFromWord(m.header.raw, m.components, 0, j);
  }

  /** Running `update_header_data` twice is the same as running it once. */
  lemma UpdateHeaderIdempotent(m: Module)
    requires |m.components| == m.header.count
    ensures UpdateHeaderData(UpdateHeaderData(m)) == UpdateHeaderData(m)
  {
    var raw, cs := m.header.raw, m.components;
    var once := UpdateFrom(raw, cs, 0);
    forall j | 0 <= j < |cs| && LengthOffset(j) + 4 <= |once|
      ensures PatchedWord(LengthField(once, j), cs[j]) == LengthField(once, j)
    {
      UpdateFromWord(raw, cs, 0, j);
      PatchedWordValue(LengthField(raw, j), cs[j]);
    }
    UpdateFixes(once, cs);
  }

  /** A module whose header already agrees with its components is not changed. */
  lemma UpdateHeaderKeepsAgreement(m: Module)
    requires HeaderAgrees(m)
    ensures UpdateHeaderData(m) == m
  {
    var raw, cs := m.header.raw, m.components;
    forall j | 0 <= j < |cs| && LengthOffset(j) + 4 <= |raw|
      ensures PatchedWord(LengthField(raw, j), cs[j]) == LengthField(raw, j)
    {
      PatchedWordStable(cs[j]);
    }
    UpdateFixes(raw, cs);
  }

  /** After `update_header_data` the header agrees with the components, when
      the table fits in the header, every absent entry already agreed, and no
      present length collides with bit 31. */
  lemma UpdateHeaderEstablishesAgreement(m: Module)
    requires |m.components| == m.header.count
    requires TableEnd(m.header.count) <= |m.header.raw|
    requires forall j :: 0 <= j < |m.components| && !m.components[j].present ==>
      LengthField(m.header.raw, j) == m.components[j].length
    requires forall j :: 0 <= j < |m.components| && m.components[j].present ==>
      m.components[j].length < PresentBit
    ensures HeaderAgrees(UpdateHeaderData(m))
  {
    forall j | 0 <= j < |m.components|
      ensures LengthField(UpdateHeaderData(m).header.raw, j) == EncodedLength(m.components[j])
    {
      UpdateHeaderWord(m, j);
    }
  }

  datatype ReplaceError = NoSuchComponent | ComponentNotPresent

  /** The length `replace_component_data` records for new data: the file size
      assigned to a `u32_t`. */
  function NewLength(data: seq<byte>): u32 {
    Wrap32(|data|)
  }

  /** `replace_component_data`: the component at `position` must be present
      and hold a payload; it gets the first `NewLength(data)` bytes of the new
      data and that length, then `update_header_data` runs. The calculated
      size is left as it was. */
  function ReplaceComponentData(m: Module, position: nat, data: seq<byte>): (r: Result<Module, ReplaceError>)
    requires |m.components| == m.header.count
    ensures r == Err(NoSuchComponent) <==> position >= |m.components|
    ensures r == Err(ComponentNotPresent) <==>
      position < |m.components| && (!m.components[position].present || m.components[position].payload.None?)
    ensures r.Ok? ==>
      && r.value.size == m.size && r.value.calculatedSize == m.calculatedSize
      && r.value.header.(raw := m.header.raw) == m.header
      && |r.value.header.raw| == |m.header.raw|
      && |r.value.components| == |m.components|
      && (forall j :: 0 <= j < |m.components| && j != position ==> r.value.components[j] == m.components[j])
      && r.value.components[position].present
      && r.value.components[position].length == NewLength(data)
      && r.value.components[position].payload == Some(data[..NewLength(data)])
      && r.value.components[position].(length := m.components[position].length, payload := m.components[position].payload)
           == m.components[position]
  {
    if position >= |m.components| then Err(NoSuchComponent)
    else
      var c := m.components[position];
      if !c.present || c.payload.None? then Err(ComponentNotPresent)
      else
        Ok(UpdateHeaderData(m.(components := Replaced(m.components, position, data))))
  }

  /** The component list after replacing the payload at `position`. */
  function Replaced(cs: seq<Component>, position: nat, data: seq<byte>): (r: seq<Component>)
    requires position < |cs|
    ensures |r| == |cs|
  {
    cs[position := cs[position].(length := NewLength(data), payload := Some(data[..NewLength(data)]))]
  }

  lemma ReplaceUnfold(m: Module, position: nat, data: seq<byte>)
    requires |m.components| == m.header.count
    requires ReplaceComponentData(m, position, data).Ok?
    ensures position < |m.components|
    ensures ReplaceComponentData(m, position, data).value.header.raw ==
      UpdateFrom(m.header.raw, Replaced(m.components, position, data), 0)
    ensures ReplaceComponentData(m, position, data).value.components == Replaced(m.components, position, data)
  {
  }

  /** A store to the word of one entry leaves the word of every other entry. */
  lemma WriteOtherWord(raw: seq<byte>, i: nat, j: nat, v: u32)
    requires i != j
    ensures LengthField(WriteU32(raw, LengthOffset(i), v), j) == LengthField(raw, j)
  {
    assert SameWordBytes(WriteU32(raw, LengthOffset(i), v), raw, LengthOffset(j));
    SameBytesSameWord(WriteU32(raw, LengthOffset(i), v), raw, LengthOffset(j));
  }

  /** The word of each present entry after replacement, on an agreeing header. */
  lemma ReplacedWord(m: Module, position: nat, data: seq<byte>, j: nat)
    requires HeaderAgrees(m)
    requires position < |m.components| && m.components[position].present
    requires j < |m.components| && LengthOffset(j) + 4 <= |m.header.raw|
    ensures var w := WriteU32(m.header.raw, LengthOffset(position), SetPresent(NewLength(data)));
      LengthField(UpdateFrom(m.header.raw, Replaced(m.components, position, data), 0), j) == LengthField(w, j)
  {
    var cs' := Replaced(m.components, position, data);
    var w := WriteU32(m.header.raw, LengthOffset(position), SetPresent(NewLength(data)));
    UpdateFromWord(m.header.raw, cs', 0, j);
    if j != position {
      PatchedWordStable(m.components[j]);
      WriteOtherWord(m.header.raw, position, j, SetPresent(NewLength(data)));
    }
  }

  /** On a module whose header agrees with its components, replacement stores
      to the header buffer exactly once: the target's length word. */
  lemma ReplaceWritesOneWord(m: Module, position: nat, data: seq<byte>)
    requires HeaderAgrees(m)
    requires ReplaceComponentData(m, position, data).Ok?
    ensures ReplaceComponentData(m, position, data).value.header.raw ==
      WriteU32(m.header.raw, LengthOffset(position), SetPresent(NewLength(data)))
  {
    ReplaceUnfold(m, position, data);
    var raw := m.header.raw;
    var cs' := Replaced(m.components, position, data);
    var r := UpdateFrom(raw, cs', 0);
    var w := WriteU32(raw, LengthOffset(position), SetPresent(NewLength(data)));
    forall q | 0 <= q < |r| && !Touched(cs', |r|, q)
      ensures r[q] == w[q]
    {
      UpdateFromFrame(raw, cs', 0, q);
    }
    forall j | 0 <= j < |cs'| && cs'[j].present && LengthOffset(j) + 4 <= |r|
      ensures LengthField(r, j) == LengthField(w, j)
    {
      ReplacedWord(m, position, data, j);
    }
    SameWordsSameBuffer(r, w, cs');
  }

  /** Replacement keeps the header in agreement with the components. */
  lemma ReplacePreservesAgreement(m: Module, position: nat, data: seq<byte>)
    requires HeaderAgrees(m)
    requires ReplaceComponentData(m, position, data).Ok?
    ensures HeaderAgrees(ReplaceComponentData(m, position, data).value)
  {
    var r := ReplaceComponentData(m, position, data).value;
    ReplaceWritesOneWord(m, position, data);
    forall j | 0 <= j < |r.components|
      ensures LengthField(r.header.raw, j) == EncodedLength(r.components[j])
    {
      if j != position {
        WriteOtherWord(m.header.raw, position, j, SetPresent(NewLength(data)));
      }
    }
  }

  /** Replacement keeps the payload buffers the size their lengths say. */
  lemma ReplacePreservesConsistency(m: Module, position: nat, data: seq<byte>)
    requires Consistent(m)
    requires ReplaceComponentData(m, position, data).Ok?
    ensures Consistent(ReplaceComponentData(m, position, data).value)
  {
    WrapIsTruncation(|data|);
  }
}
