/**
  The layout of a compiled Compose table: `struct compose_node` and the three
  arrays of `struct xkb_compose_table` that nodes point into.

  A node does not own its key sequence or its text. It holds offsets into two
  arrays shared by the whole table: `sequence`/`sequence_len` name a run of
  keysyms in `sequences`, and `utf8` names a position in the `utf8` bytes.
  The offsets are C bit-fields of fixed width, so the datatype gives each one
  a type bounded by its width, and `Store24`, `Store8`, `Store32` say what a
  store into such a field keeps.
 */
module Compose {
  import opened Wrappers
  import opened Xkb

  /** The number of values a 24-bit field holds. */
  const LIMIT_24: nat := 0x100_0000
  /** The number of values an 8-bit field holds. */
  const LIMIT_8: nat := 0x100
  /** The number of values a 32-bit field holds. */
  const LIMIT_32: nat := 0x1_0000_0000

  /** `uint32_t sequence:24`. */
  newtype Field24 = x: int | 0 <= x < 0x100_0000
  /** `uint32_t sequence_len:8`. */
  newtype Field8 = x: int | 0 <= x < 0x100
  /** `uint32_t utf8`. */
  newtype Field32 = x: int | 0 <= x < 0x1_0000_0000

  /** One byte of the table's UTF-8 text store (`darray_char`). */
  type Byte = bv8

  /**
    `struct compose_node`: where the node's key sequence starts in the
    table's `sequences` array and how long it is, where its text starts in
    the table's `utf8` array, and the keysym it produces.
   */
  datatype ComposeNode = ComposeNode(
    sequence: Field24,
    sequenceLen: Field8,
    utf8: Field32,
    keysym: Keysym
  )

  /**
    The arrays of `struct xkb_compose_table`: the nodes, the keysym store
    the nodes' sequences live in, and the byte store their texts live in.
    Reference count, format, flags, context and locale are not modelled.
   */
  datatype ComposeTable = ComposeTable(
    nodes: seq<ComposeNode>,
    sequences: seq<Keysym>,
    utf8: seq<Byte>
  )

  // ---------------------------------------------------------------------
  // Stores into the fixed-width fields
  // ---------------------------------------------------------------------

  /**
    What an unsigned field of `limit` values keeps of `v` (C's conversion to
    an unsigned type of that width): the value itself exactly when it fits,
    and otherwise something smaller.
   */
  function Wrap(v: nat, limit: nat): (f: nat)
    requires limit > 0
    ensures f < limit
    ensures f == v <==> v < limit
    ensures f <= v
  {
    v % limit
  }

  /** Storing `v` into the 24-bit `sequence` field. */
  function Store24(v: nat): (f: Field24)
    ensures f as int == v <==> v < LIMIT_24
  {
    Wrap(v, LIMIT_24) as Field24
  }

  /** Storing `v` into the 8-bit `sequence_len` field. */
  function Store8(v: nat): (f: Field8)
    ensures f as int == v <==> v < LIMIT_8
  {
    Wrap(v, LIMIT_8) as Field8
  }

  /** Storing `v` into the 32-bit `utf8` field. */
  function Store32(v: nat): (f: Field32)
    ensures f as int == v <==> v < LIMIT_32
  {
    Wrap(v, LIMIT_32) as Field32
  }

  /** A node whose fields were assigned the given offsets, length and keysym. */
  function MakeNode(sequence: nat, sequenceLen: nat, utf8: nat, keysym: Keysym): ComposeNode
  {
    ComposeNode(Store24(sequence), Store8(sequenceLen), Store32(utf8), keysym)
  }

  /**
    A node keeps the offsets and the length it was given exactly when the
    sequence offset is below 2^24, the length at most 255 and the text
    offset below 2^32; the keysym is always kept.
   */
  lemma MakeNodeKeepsFieldsIff(sequence: nat, sequenceLen: nat, utf8: nat, keysym: Keysym)
    ensures var n := MakeNode(sequence, sequenceLen, utf8, keysym);
      n.keysym == keysym
      && (n.sequence as int == sequence && n.sequenceLen as int == sequenceLen && n.utf8 as int == utf8
          <==> sequence < LIMIT_24 && sequenceLen <= 255 && utf8 < LIMIT_32)
  {
  }

  // ---------------------------------------------------------------------
  // Well-formed tables
  // ---------------------------------------------------------------------

  /** The node's keysym run `[sequence, sequence + sequence_len)` lies within `sequences`. */
  predicate SequenceInBounds(t: ComposeTable, n: ComposeNode)
  {
    n.sequence as int + n.sequenceLen as int <= |t.sequences|
  }

  /** The node's text offset is a position of the `utf8` array. */
  predicate Utf8InBounds(t: ComposeTable, n: ComposeNode)
  {
    (n.utf8 as int) < |t.utf8|
  }

  /** Both of a node's offsets point into the table's arrays. */
  predicate NodeValid(t: ComposeTable, n: ComposeNode)
  {
    SequenceInBounds(t, n) && Utf8InBounds(t, n)
  }

  /** A well-formed table: every node's offsets point into the table's arrays. */
  predicate Valid(t: ComposeTable)
  {
    forall i :: 0 <= i < |t.nodes| ==> NodeValid(t, t.nodes[i])
  }

  /**
    The keysyms of node `i`: `sequence_len` entries of `sequences` starting
    at `sequence`, or `None` when there is no node `i` or the run does not
    lie within `sequences`.
   */
  function NodeSequence(t: ComposeTable, i: nat): (r: Option<seq<Keysym>>)
    ensures r.Some? <==> i < |t.nodes| && SequenceInBounds(t, t.nodes[i])
    ensures r.Some? ==>
      |r.value| == t.nodes[i].sequenceLen as int
      && forall j :: 0 <= j < |r.value| ==> r.value[j] == t.sequences[t.nodes[i].sequence as int + j]
  {
    if i < |t.nodes| && SequenceInBounds(t, t.nodes[i]) then
      var n := t.nodes[i];
      Some(t.sequences[n.sequence as int .. n.sequence as int + n.sequenceLen as int])
    else
      None
  }

  /**
    The bytes seen from node `i`'s text offset (`utf8` plus the node's
    offset): a non-empty tail of the `utf8` array, or `None` when there is
    no node `i` or its offset is past the end of the array.
   */
  function NodeUtf8(t: ComposeTable, i: nat): (r: Option<seq<Byte>>)
    ensures r.Some? <==> i < |t.nodes| && Utf8InBounds(t, t.nodes[i])
    ensures r.Some? ==> r.value != [] && t.utf8[..t.nodes[i].utf8] + r.value == t.utf8
  {
    if i < |t.nodes| && Utf8InBounds(t, t.nodes[i]) then
      Some(t.utf8[t.nodes[i].utf8..])
    else
      None
  }

  /** A table is well formed exactly when every node's sequence and text resolve. */
  lemma ValidIffEveryNodeResolves(t: ComposeTable)
    ensures Valid(t) <==>
      forall i: nat :: i < |t.nodes| ==> NodeSequence(t, i).Some? && NodeUtf8(t, i).Some?
  {
    if !Valid(t) {
      var i :| 0 <= i < |t.nodes| && !NodeValid(t, t.nodes[i]);
      assert !(NodeSequence(t, i).Some? && NodeUtf8(t, i).Some?);
    }
  }

  /**
    Adding a node whose offsets point into the arrays keeps the table well
    formed and leaves what every earlier node resolves to unchanged.
   */
  lemma AddNodeKeepsValid(t: ComposeTable, n: ComposeNode)
    requires Valid(t)
    requires NodeValid(t, n)
    ensures var t' := t.(nodes := t.nodes + [n]);
      && Valid(t')
      && NodeSequence(t', |t.nodes|).Some?
      && NodeUtf8(t', |t.nodes|).Some?
      && forall i: nat :: i < |t.nodes| ==>
           NodeSequence(t', i) == NodeSequence(t, i) && NodeUtf8(t', i) == NodeUtf8(t, i)
  {
  }

  /**
    Appending keysyms and bytes to the two stores keeps the table well
    formed. Every node still resolves to the same keysyms, and the bytes its
    text offset sees only gain a tail: the old ones stay in front.
   */
  lemma GrowStoresKeepsValid(t: ComposeTable, moreSequences: seq<Keysym>, moreUtf8: seq<Byte>)
    requires Valid(t)
    ensures var t' := t.(sequences := t.sequences + moreSequences, utf8 := t.utf8 + moreUtf8);
      && Valid(t')
      && forall i: nat :: i < |t.nodes| ==>
           && NodeSequence(t', i) == NodeSequence(t, i)
           && NodeUtf8(t', i).Some?
           && NodeUtf8(t', i).value == NodeUtf8(t, i).value + moreUtf8
  {
    var t' := t.(sequences := t.sequences + moreSequences, utf8 := t.utf8 + moreUtf8);
    forall i: nat | i < |t.nodes|
      ensures NodeSequence(t', i) == NodeSequence(t, i)
      ensures NodeUtf8(t', i).Some? && NodeUtf8(t', i).value == NodeUtf8(t, i).value + moreUtf8
    {
      var n := t.nodes[i];
      assert NodeValid(t, n);
      var lo, hi := n.sequence as int, n.sequence as int + n.sequenceLen as int;
      assert t'.sequences[lo..hi] == t.sequences[lo..hi];
      assert t'.utf8[n.utf8..] == t.utf8[n.utf8..] + moreUtf8;
    }
  }
}
