/** Field descriptors packed into 32-bit words: one, two, four or eight words for a field. */
module PbLayout {
  import opened Machine

  /** A field as the descriptor lists it; `format` is the logarithm of its number of words. */
  datatype Entry = Entry(
    format: nat, tag: nat, kind: u8, dataOffset: nat, dataSize: nat, sizeOffset: nat, arraySize: nat)

  function Length(e: Entry): (n: nat)
    ensures n > 0
  {
    if e.format == 0 then 1 else if e.format == 1 then 2 else if e.format == 2 then 4 else 8
  }

  /** Every part fits the bits its format has for it. */
  predicate Fits(e: Entry) {
    if e.format == 0 then
      e.tag < 0x40 && e.dataOffset < 0x100 && e.sizeOffset < 0x10 && e.dataSize < 0x10 && e.arraySize == 1
    else if e.format == 1 then
      e.tag < 0x400 && e.dataOffset < 0x1_0000 && e.sizeOffset < 0x10 && e.dataSize < 0x1000 && e.arraySize < 0x1000
    else
      e.format <= 3 && e.tag < 0x1_0000 && e.dataOffset < U32_MOD && e.sizeOffset < 0x80
      && e.dataSize < 0x1_0000 && e.arraySize < 0x1_0000
  }

  /** The lower half of every first word: format, low tag bits, kind. */
  function Head(e: Entry): nat {
    e.format + 4 * (e.tag % 0x40 + 0x40 * e.kind)
  }

  /** The words of a field. */
  function Pack(e: Entry): (ws: seq<u32>)
    requires Fits(e)
    ensures |ws| == Length(e)
  {
    if e.format == 0 then
      [Head(e) + 0x1_0000 * (e.dataOffset + 0x100 * (e.sizeOffset + 0x10 * e.dataSize))]
    else if e.format == 1 then
      [Head(e) + 0x1_0000 * (e.arraySize + 0x1000 * e.sizeOffset),
       e.dataOffset + 0x1_0000 * (e.dataSize + 0x1000 * (e.tag / 0x40))]
    else if e.format == 2 then
      [Head(e) + 0x1_0000 * e.arraySize, e.sizeOffset + 0x100 * (e.tag / 0x40), e.dataOffset, e.dataSize]
    else
      [Head(e), e.sizeOffset + 0x100 * (e.tag / 0x40), e.dataOffset, e.dataSize, e.arraySize, 0, 0, 0]
  }

  /** The words from an index on are as many as the format found there says. */
  predicate Whole(ws: seq<u32>, at: nat) {
    && at < |ws|
    && at + (if ws[at] % 4 == 0 then 1 else if ws[at] % 4 == 1 then 2 else if ws[at] % 4 == 2 then 4 else 8) <= |ws|
  }

  /** What is read back from the words at an index. */
  function Load(ws: seq<u32>, at: nat): Entry
    requires Whole(ws, at)
  {
    var w0: nat := ws[at];
    var format, low, kind, upper := w0 % 4, w0 / 4 % 0x40, w0 / 0x100 % 0x100, w0 / 0x1_0000;
    if format == 0 then
      Entry(0, low, kind, upper % 0x100, upper / 0x1000 % 0x10, upper / 0x100 % 0x10, 1)
    else if format == 1 then
      var w1: nat := ws[at + 1];
      Entry(1, low + 0x40 * (w1 / 0x1000_0000), kind, w1 % 0x1_0000, w1 / 0x1_0000 % 0x1000,
            upper / 0x1000 % 0x10, upper % 0x1000)
    else
      var w1: nat := ws[at + 1];
      Entry(format, (low + 0x40 * (w1 / 0x100)) % 0x1_0000, kind, ws[at + 2], ws[at + 3] % 0x1_0000, w1 % 0x100,
            if format == 2 then upper else ws[at + 4] % 0x1_0000)
  }

  /** The first word is enough to walk on and to tell most other fields apart. */
  lemma HeadReads(e: Entry, w0: nat, upper: nat)
    requires Fits(e) && w0 == Head(e) + 0x1_0000 * upper
    ensures w0 % 4 == e.format && w0 / 4 % 0x40 == e.tag % 0x40
    ensures w0 / 0x100 % 0x100 == e.kind && w0 / 0x1_0000 == upper
  {
    var q := e.tag % 0x40 + 0x40 * e.kind + 0x4000 * upper;
    assert w0 == e.format + 4 * q && w0 / 4 == q;
    assert w0 / 0x100 == e.kind + 0x100 * upper;
  }

  function Upper(e: Entry): nat {
    if e.format == 0 then e.dataOffset + 0x100 * (e.sizeOffset + 0x10 * e.dataSize)
    else if e.format == 1 then e.arraySize + 0x1000 * e.sizeOffset
    else if e.format == 2 then e.arraySize
    else 0
  }

  lemma FirstWord(e: Entry)
    requires Fits(e)
    ensures Pack(e)[0] == Head(e) + 0x1_0000 * Upper(e)
  {
  }

  /** Loading inverts packing, in every format. */
  lemma LoadInverts(e: Entry, ws: seq<u32>, at: nat)
    requires Fits(e) && at + Length(e) <= |ws| && ws[at..at + Length(e)] == Pack(e)
    ensures Whole(ws, at) && Load(ws, at) == e
  {
    var p := Pack(e);
    FirstWord(e);
    assert p[0] == ws[at];
    HeadReads(e, ws[at], Upper(e));
    if e.format == 0 {
      LoadOne(e, Upper(e));
    } else if e.format == 1 {
      assert p[1] == ws[at + 1];
      LoadTwo(e, Upper(e), ws[at + 1]);
    } else {
      LoadLong(e, ws, at);
    }
  }

  /** The formats of four and eight words. */
  lemma LoadLong(e: Entry, ws: seq<u32>, at: nat)
    requires Fits(e) && e.format >= 2 && at + Length(e) <= |ws| && ws[at..at + Length(e)] == Pack(e)
    requires ws[at] % 4 == e.format && ws[at] / 4 % 0x40 == e.tag % 0x40
    requires ws[at] / 0x100 % 0x100 == e.kind && ws[at] / 0x1_0000 == Upper(e)
    ensures Whole(ws, at) && Load(ws, at) == e
  {
    var p := Pack(e);
    assert p[1] == ws[at + 1] && p[2] == ws[at + 2] && p[3] == ws[at + 3];
    assert e.format == 3 ==> p[4] == ws[at + 4];
    LoadMore(e, ws[at + 1]);
  }

  lemma LoadOne(e: Entry, upper: nat)
    requires Fits(e) && e.format == 0 && upper == Upper(e)
    ensures upper % 0x100 == e.dataOffset && upper / 0x100 % 0x10 == e.sizeOffset && upper / 0x1000 % 0x10 == e.dataSize
  {
    assert upper / 0x100 == e.sizeOffset + 0x10 * e.dataSize;
  }

  lemma LoadTwo(e: Entry, upper: nat, w1: nat)
    requires Fits(e) && e.format == 1 && upper == Upper(e) && w1 == Pack(e)[1]
    ensures upper % 0x1000 == e.arraySize && upper / 0x1000 % 0x10 == e.sizeOffset
    ensures w1 % 0x1_0000 == e.dataOffset && w1 / 0x1_0000 % 0x1000 == e.dataSize
    ensures e.tag % 0x40 + 0x40 * (w1 / 0x1000_0000) == e.tag
  {
    assert w1 / 0x1_0000 == e.dataSize + 0x1000 * (e.tag / 0x40);
    assert w1 / 0x1000_0000 == e.tag / 0x40;
  }

  lemma LoadMore(e: Entry, w1: nat)
    requires Fits(e) && e.format >= 2 && w1 == Pack(e)[1]
    ensures w1 % 0x100 == e.sizeOffset && (e.tag % 0x40 + 0x40 * (w1 / 0x100)) % 0x1_0000 == e.tag
  {
    assert w1 / 0x100 == e.tag / 0x40;
  }
}
