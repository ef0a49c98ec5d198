/** The dump loops of the acquisition clients: the generic print_data of acq.c, in its TEXT and
  BINARY formats, and the one of acq_trigger.c that is specialised to four atoms.

  An atom is shown by the bytes of the buffer it is read from; how printf renders the number is not
  modelled.  The interrupt flag is polled once per row and may change at any time. */
module Dump {
  import opened Bits
  import opened Fields

  type Byte = b: nat | b < 0x100
  type Bytes = seq<Byte>

  /** The atoms of one printed line. */
  type Row = seq<Bytes>

  /** The number of bytes print_sample reads for an atom: unknown sizes are printed as int16_t. */
  function ReadWidth(atomSize: nat): nat {
    if atomSize == 4 then 4 else if atomSize == 8 then 8 else 2
  }

  /** The atoms of a row lie within one sample and are not smaller than what print_sample reads for
    them; without that the loop could read past the end of the buffer. */
  predicate Readable(sampleSize: Word, atomSize: Word, numAtoms: Word) {
    atomSize >= 2 && sampleSize > 0 && atomSize * numAtoms <= sampleSize
  }

  /** A channel as its properties should describe it: a sample is its atoms, of a size that
    print_sample knows. */
  predicate Consistent(sampleSize: Word, atomSize: Word, numAtoms: Word) {
    Readable(sampleSize, atomSize, numAtoms) && atomSize * numAtoms == sampleSize && atomSize in {2, 4, 8}
  }

  /** How many of n rows are printed when the flag is polled before each of them. */
  function Printed(interrupted: nat -> bool, n: nat): (k: nat)
    ensures k <= n
    ensures forall i :: 0 <= i < k ==> !interrupted(i)
    ensures k < n ==> interrupted(k)
  {
    if n == 0 then 0
    else
      var k := Printed(interrupted, n - 1);
      if k < n - 1 || interrupted(n - 1) then k else n
  }

  /** size/unit: how many whole units there are. */
  function Whole(size: nat, unit: nat): (n: nat)
    requires unit > 0
    ensures n * unit == size - size % unit && 0 <= size % unit < unit
  {
    QuotientIsNat(size, unit);
    size / unit
  }

  lemma {:induction false} QuotientIsNat(a: nat, d: nat)
    requires d > 0
    ensures a / d >= 0
  {
    if a / d < 0 {
      MulGrows(a / d, 0, d);
    }
  }

  // ----- the rows, as plain arithmetic on the buffer

  /** Where an atom of a row starts. */
  function Start(i: nat, atom: nat, atomSize: nat, numAtoms: nat): nat {
    atomSize * (i * numAtoms + atom)
  }

  lemma {:induction false} StartStep(i: nat, atom: nat, atomSize: nat, numAtoms: nat)
    ensures Start(i, atom + 1, atomSize, numAtoms) == Start(i, atom, atomSize, numAtoms) + atomSize
    ensures Start(i, numAtoms, atomSize, numAtoms) == Start(i + 1, 0, atomSize, numAtoms)
    ensures Start(0, 0, atomSize, numAtoms) == 0
  {
    assert atomSize * (i * numAtoms + (atom + 1)) == atomSize * (i * numAtoms + atom) + atomSize;
    assert i * numAtoms + numAtoms == (i + 1) * numAtoms;
  }

  lemma {:induction false} StartOfRow(i: nat, atomSize: nat, numAtoms: nat)
    ensures Start(i, 0, atomSize, numAtoms) == i * (atomSize * numAtoms)
  {
    assert atomSize * (i * numAtoms) == i * (atomSize * numAtoms);
  }

  lemma {:induction false} StartMonotone(i: nat, atom: nat, j: nat, other: nat, atomSize: nat, numAtoms: nat)
    requires i * numAtoms + atom <= j * numAtoms + other
    ensures Start(i, atom, atomSize, numAtoms) <= Start(j, other, atomSize, numAtoms)
  {
    var x, y := i * numAtoms + atom, j * numAtoms + other;
    if x < y && atomSize > 0 {
      MulGrows(x, y, atomSize);
    }
  }

  /** An atom of a row before `rows` ends inside the first `rows` samples. */
  lemma {:induction false} AtomInside(i: nat, atom: nat, atomSize: nat, numAtoms: nat, rows: nat)
    requires i < rows && atom < numAtoms
    ensures Start(i, atom, atomSize, numAtoms) + atomSize <= rows * (atomSize * numAtoms)
  {
    StartStep(i, atom, atomSize, numAtoms);
    if i + 1 < rows {
      MulGrows(i + 1, rows, numAtoms);
    }
    assert (i + 1) * numAtoms == i * numAtoms + numAtoms;
    StartMonotone(i, atom + 1, rows, 0, atomSize, numAtoms);
    StartOfRow(rows, atomSize, numAtoms);
  }

  /** What print_sample reads of the first `atoms` atoms of a row. */
  function AtomsOf(data: Bytes, i: nat, atoms: nat, atomSize: nat, numAtoms: nat): (row: Row)
    requires atomSize >= 2 && atoms <= numAtoms && (i + 1) * (atomSize * numAtoms) <= |data|
    ensures |row| == atoms
  {
    if atoms == 0 then []
    else
      AtomInside(i, atoms - 1, atomSize, numAtoms, i + 1);
      var start := Start(i, atoms - 1, atomSize, numAtoms);
      AtomsOf(data, i, atoms - 1, atomSize, numAtoms) + [data[start..start + ReadWidth(atomSize)]]
  }

  /** The first `rows` rows. */
  function RowsOf(data: Bytes, rows: nat, atomSize: nat, numAtoms: nat): (r: seq<Row>)
    requires atomSize >= 2 && rows * (atomSize * numAtoms) <= |data|
    ensures |r| == rows
  {
    if rows == 0 then []
    else
      MulMonotone(rows - 1, rows, atomSize * numAtoms);
      RowsOf(data, rows - 1, atomSize, numAtoms) + [AtomsOf(data, rows - 1, numAtoms, atomSize, numAtoms)]
  }

  // ----- the generic loop

  /** The offset as C computes it, on uint32_t: atom_size*((i*num_atoms)+atom). */
  function Offset32(i: Word, atom: Word, atomSize: Word, numAtoms: Word): Word {
    (atomSize * ((i * numAtoms + atom) % WORD_LIMIT)) % WORD_LIMIT
  }

  /** For a readable channel no offset of the loop wraps around. */
  lemma {:induction false} OffsetsDoNotWrap(
      i: Word, atom: Word, sampleSize: Word, atomSize: Word, numAtoms: Word, size: Word)
    requires Readable(sampleSize, atomSize, numAtoms)
    requires i < Whole(size, sampleSize) && atom < numAtoms
    ensures Offset32(i, atom, atomSize, numAtoms) == Start(i, atom, atomSize, numAtoms)
    ensures Start(i, atom, atomSize, numAtoms) + atomSize <= size
  {
    hide Whole;
    AtomInside(i, atom, atomSize, numAtoms, Whole(size, sampleSize));
    RowsWithin(Whole(size, sampleSize), atomSize * numAtoms, sampleSize);
    NoWrap(i * numAtoms + atom, atomSize);
  }

  lemma {:induction false} RowsWithin(rows: nat, shown: nat, sample: nat)
    requires shown <= sample
    ensures rows * shown <= rows * sample
  {
    MulMonotone(shown, sample, rows);
    assert rows * shown == shown * rows && rows * sample == sample * rows;
  }

  lemma {:induction false} NoWrap(index: nat, atomSize: nat)
    requires atomSize > 0 && atomSize * index < WORD_LIMIT
    ensures (atomSize * (index % WORD_LIMIT)) % WORD_LIMIT == atomSize * index
  {
    MulAtLeast(index, atomSize);
    assert index * atomSize == atomSize * index;
    assert index % WORD_LIMIT == index;
  }

  /** The inner loop of print_data: the atoms of one row. */
  method PrintRow(data: Bytes, i: Word, sampleSize: Word, atomSize: Word, numAtoms: Word, size: Word) returns (row: Row)
    requires Readable(sampleSize, atomSize, numAtoms) && size <= |data| && i < Whole(size, sampleSize)
    ensures (i + 1) * (atomSize * numAtoms) <= |data| && row == AtomsOf(data, i, numAtoms, atomSize, numAtoms)
  {
    row := [];
    MulMonotone(i + 1, Whole(size, sampleSize), sampleSize);
    RowsWithin(i + 1, atomSize * numAtoms, sampleSize);
    var atom: Word := 0;
    while atom < numAtoms
      invariant atom <= numAtoms
      invariant row == AtomsOf(data, i, atom, atomSize, numAtoms)
    {
      OffsetsDoNotWrap(i, atom, sampleSize, atomSize, numAtoms, size);
      var offset := Offset32(i, atom, atomSize, numAtoms);
      row := row + [data[offset..offset + ReadWidth(atomSize)]];
      atom := atom + 1;
    }
  }

  /** print_data with TEXT: the rows printed are those of the buffer, up to the first interrupt. */
  method PrintText(data: Bytes, sampleSize: Word, atomSize: Word, numAtoms: Word, size: Word, interrupted: nat -> bool)
    returns (rows: seq<Row>)
    requires Readable(sampleSize, atomSize, numAtoms) && size <= |data|
    ensures var n := Printed(interrupted, Whole(size, sampleSize));
            n * (atomSize * numAtoms) <= |data| && rows == RowsOf(data, n, atomSize, numAtoms)
  {
    rows := [];
    var i: Word := 0;
    while i < Whole(size, sampleSize)
      invariant i <= Whole(size, sampleSize)
      invariant forall j :: 0 <= j < i ==> !interrupted(j)
      invariant i * (atomSize * numAtoms) <= |data| && rows == RowsOf(data, i, atomSize, numAtoms)
    {
      if interrupted(i) {
        break;
      }
      var row := PrintRow(data, i, sampleSize, atomSize, numAtoms, size);
      rows := rows + [row];
      i := i + 1;
    }
    PrintedIs(interrupted, Whole(size, sampleSize), i);
  }

  lemma {:induction false} PrintedIs(interrupted: nat -> bool, n: nat, k: nat)
    requires k <= n && (forall i :: 0 <= i < k ==> !interrupted(i)) && (k < n ==> interrupted(k))
    ensures Printed(interrupted, n) == k
  {
    var p := Printed(interrupted, n);
  }

  /** print_data with BINARY: fwrite of size/atom_size atoms. */
  function BinaryBytes(data: Bytes, atomSize: Word, size: Word): Bytes
    requires atomSize > 0 && size <= |data|
  {
    data[..Whole(size, atomSize) * atomSize]
  }

  // ----- what the dumps show

  /** All bytes of a row, and of all rows, in the order in which they are shown. */
  function Shown(row: Row): Bytes {
    if row == [] then [] else Shown(row[..|row| - 1]) + row[|row| - 1]
  }

  function AllShown(rows: seq<Row>): Bytes {
    if rows == [] then [] else AllShown(rows[..|rows| - 1]) + Shown(rows[|rows| - 1])
  }

  lemma {:induction false} StartInside(i: nat, atoms: nat, atomSize: nat, numAtoms: nat)
    requires atoms <= numAtoms
    ensures Start(i, 0, atomSize, numAtoms) <= Start(i, atoms, atomSize, numAtoms) <= (i + 1) * (atomSize * numAtoms)
  {
    StartMonotone(i, 0, i, atoms, atomSize, numAtoms);
    StartMonotone(i, atoms, i, numAtoms, atomSize, numAtoms);
    StartStep(i, 0, atomSize, numAtoms);
    StartOfRow(i + 1, atomSize, numAtoms);
  }

  lemma {:induction false} ShownSnoc(row: Row, atom: Bytes)
    ensures Shown(row + [atom]) == Shown(row) + atom
  {
    assert (row + [atom])[..|row|] == row;
  }

  lemma {:induction false} AtomsShown(data: Bytes, i: nat, atoms: nat, atomSize: nat, numAtoms: nat)
    requires atomSize in {2, 4, 8} && atoms <= numAtoms && (i + 1) * (atomSize * numAtoms) <= |data|
    ensures Start(i, 0, atomSize, numAtoms) <= Start(i, atoms, atomSize, numAtoms) <= |data|
    ensures Shown(AtomsOf(data, i, atoms, atomSize, numAtoms))
         == data[Start(i, 0, atomSize, numAtoms)..Start(i, atoms, atomSize, numAtoms)]
    decreases atoms
  {
    hide Start, Shown;
    StartInside(i, atoms, atomSize, numAtoms);
    if atoms == 0 {
      NothingShown();
    } else {
      AtomsShown(data, i, atoms - 1, atomSize, numAtoms);
      AtomInside(i, atoms - 1, atomSize, numAtoms, i + 1);
      StartStep(i, atoms - 1, atomSize, numAtoms);
      var from, to := Start(i, 0, atomSize, numAtoms), Start(i, atoms, atomSize, numAtoms);
      var mid := Start(i, atoms - 1, atomSize, numAtoms);
      ShownSnoc(AtomsOf(data, i, atoms - 1, atomSize, numAtoms), data[mid..to]);
      assert data[from..mid] + data[mid..to] == data[from..to];
    }
  }

  lemma {:induction false} NothingShown()
    ensures Shown([]) == []
  {
  }

  /** The rows show the buffer from its first byte on, every byte once and in order. */
  lemma {:induction false} RowsShown(data: Bytes, rows: nat, atomSize: nat, numAtoms: nat)
    requires atomSize in {2, 4, 8} && rows * (atomSize * numAtoms) <= |data|
    ensures AllShown(RowsOf(data, rows, atomSize, numAtoms)) == data[..rows * (atomSize * numAtoms)]
    decreases rows
  {
    hide Start, AtomsOf, Shown, AllShown, ReadWidth;
    if rows > 0 {
      var sample := atomSize * numAtoms;
      MulMonotone(rows - 1, rows, sample);
      RowsShown(data, rows - 1, atomSize, numAtoms);
      AtomsShown(data, rows - 1, numAtoms, atomSize, numAtoms);
      StartOfRow(rows - 1, atomSize, numAtoms);
      StartStep(rows - 1, 0, atomSize, numAtoms);
      StartOfRow(rows, atomSize, numAtoms);
      AllShownSnoc(RowsOf(data, rows - 1, atomSize, numAtoms), AtomsOf(data, rows - 1, numAtoms, atomSize, numAtoms));
    } else {
      NoRowsShown();
    }
  }

  lemma {:induction false} AllShownSnoc(rows: seq<Row>, row: Row)
    ensures AllShown(rows + [row]) == AllShown(rows) + Shown(row)
  {
    assert (rows + [row])[..|rows|] == rows;
  }

  lemma {:induction false} NoRowsShown()
    ensures AllShown([]) == []
  {
  }

  /** TEXT against BINARY: what TEXT shows is a prefix of what BINARY writes, whether it is
    interrupted or not; uninterrupted, the two agree exactly when less than one atom is left over
    after the last whole sample. */
  lemma {:induction false} TextAgainstBinary(
      data: Bytes, sampleSize: Word, atomSize: Word, numAtoms: Word, size: Word, n: nat)
    requires Consistent(sampleSize, atomSize, numAtoms) && size <= |data|
    requires n <= Whole(size, sampleSize)
    ensures n * (atomSize * numAtoms) <= |data|
    ensures AllShown(RowsOf(data, n, atomSize, numAtoms)) <= BinaryBytes(data, atomSize, size)
    ensures n == Whole(size, sampleSize) ==>
              (AllShown(RowsOf(data, n, atomSize, numAtoms)) == BinaryBytes(data, atomSize, size)
               <==> size % sampleSize < atomSize)
  {
    hide RowsOf, AllShown;
    MulMonotone(n, Whole(size, sampleSize), sampleSize);
    RowsShown(data, n, atomSize, numAtoms);
    LeftOver(size, atomSize, numAtoms);
    TakesEqual(data, n * sampleSize, size - size % atomSize);
  }

  lemma {:induction false} TakesEqual(data: Bytes, a: nat, b: nat)
    requires a <= b <= |data|
    ensures data[..a] <= data[..b]
    ensures data[..a] == data[..b] <==> a == b
  {
    if data[..a] == data[..b] {
      assert |data[..a]| == |data[..b]|;
    }
  }

  /** What is left after the last whole atom is what is left of the rest after the last sample. */
  lemma {:induction false} LeftOver(size: nat, atomSize: nat, numAtoms: nat)
    requires atomSize > 0 && numAtoms > 0
    ensures size % atomSize == (size % (atomSize * numAtoms)) % atomSize
    ensures size % atomSize <= size % (atomSize * numAtoms)
    ensures size % (atomSize * numAtoms) < atomSize <==> size % (atomSize * numAtoms) == size % atomSize
  {
    var sample := atomSize * numAtoms;
    MulPositive(atomSize, numAtoms);
    var q, left := size / sample, size % sample;
    var p, rest := left / atomSize, left % atomSize;
    assert size == q * sample + left && left == p * atomSize + rest;
    assert q * sample == (q * numAtoms) * atomSize;
    assert (q * numAtoms) * atomSize + p * atomSize == (q * numAtoms + p) * atomSize;
    DivModUnique(size, atomSize, q * numAtoms + p, rest);
    if left < atomSize {
      DivModUnique(left, atomSize, 0, left);
    }
  }

  lemma {:induction false} MulPositive(a: nat, b: nat)
    requires a > 0 && b > 0
    ensures a * b > 0
  {
    MulGrows(0, a, b);
  }

  /** print_sample reads the whole atom for 2, 4 and 8 bytes only. */
  lemma {:induction false} ReadWidthExact(atomSize: Word)
    ensures ReadWidth(atomSize) == atomSize <==> atomSize in {2, 4, 8}
  {
  }

  lemma {:induction false} AtomsLength(data: Bytes, i: nat, atoms: nat, atomSize: nat, numAtoms: nat)
    requires atomSize >= 2 && atoms <= numAtoms && (i + 1) * (atomSize * numAtoms) <= |data|
    ensures |Shown(AtomsOf(data, i, atoms, atomSize, numAtoms))| == atoms * ReadWidth(atomSize)
    decreases atoms
  {
    hide Shown, ReadWidth;
    if atoms == 0 {
      NothingShown();
    } else {
      AtomsLength(data, i, atoms - 1, atomSize, numAtoms);
      AtomInside(i, atoms - 1, atomSize, numAtoms, i + 1);
      WidthFits(atomSize);
      var start := Start(i, atoms - 1, atomSize, numAtoms);
      ShownSnoc(AtomsOf(data, i, atoms - 1, atomSize, numAtoms), data[start..start + ReadWidth(atomSize)]);
      OneMore(atoms, ReadWidth(atomSize));
    }
  }

  lemma {:induction false} WidthFits(atomSize: nat)
    requires atomSize >= 2
    ensures 0 < ReadWidth(atomSize) <= atomSize
    ensures ReadWidth(atomSize) == atomSize <==> atomSize in {2, 4, 8}
  {
  }

  lemma {:induction false} OneMore(n: int, d: int)
    ensures n * d == (n - 1) * d + d
  {
  }

  lemma {:induction false} RowsLength(data: Bytes, rows: nat, atomSize: nat, numAtoms: nat)
    requires atomSize >= 2 && rows * (atomSize * numAtoms) <= |data|
    ensures |AllShown(RowsOf(data, rows, atomSize, numAtoms))| == rows * (numAtoms * ReadWidth(atomSize))
    decreases rows
  {
    hide Shown, AllShown, AtomsOf, ReadWidth;
    if rows > 0 {
      MulMonotone(rows - 1, rows, atomSize * numAtoms);
      RowsLength(data, rows - 1, atomSize, numAtoms);
      AtomsLength(data, rows - 1, numAtoms, atomSize, numAtoms);
      AllShownSnoc(RowsOf(data, rows - 1, atomSize, numAtoms), AtomsOf(data, rows - 1, numAtoms, atomSize, numAtoms));
      OneMore(rows, numAtoms * ReadWidth(atomSize));
    } else {
      NoRowsShown();
    }
  }

  /** The rows show all of the buffer they span exactly when there is nothing to show or the atoms
    have a size that print_sample knows. */
  lemma {:induction false} RowsShownExact(data: Bytes, rows: nat, atomSize: nat, numAtoms: nat)
    requires atomSize >= 2 && rows * (atomSize * numAtoms) <= |data|
    ensures AllShown(RowsOf(data, rows, atomSize, numAtoms)) == data[..rows * (atomSize * numAtoms)]
       <==> rows * numAtoms == 0 || atomSize in {2, 4, 8}
  {
    hide AllShown, RowsOf, ReadWidth;
    RowsLength(data, rows, atomSize, numAtoms);
    WidthFits(atomSize);
    if atomSize in {2, 4, 8} {
      RowsShown(data, rows, atomSize, numAtoms);
    } else {
      ShorterRows(rows, numAtoms, ReadWidth(atomSize), atomSize);
    }
  }

  /** Of one atom of 3 bytes only 2 are shown. */
  lemma {:induction false} ThreeByteAtom(data: Bytes)
    requires |data| == 3
    ensures AllShown(RowsOf(data, 1, 3, 1)) != data[..3]
  {
    RowsShownExact(data, 1, 3, 1);
  }

  lemma {:induction false} ShorterRows(rows: nat, numAtoms: nat, width: nat, atomSize: nat)
    requires width < atomSize
    ensures rows * (numAtoms * width) == rows * (atomSize * numAtoms) <==> rows * numAtoms == 0
    ensures rows * numAtoms == 0 ==> rows * (numAtoms * width) == rows * (atomSize * numAtoms) == 0
  {
    if rows > 0 && numAtoms > 0 {
      MulGrows(width, atomSize, numAtoms);
      MulGrows(numAtoms * width, atomSize * numAtoms, rows);
      MulPositive(rows, numAtoms);
    }
  }

  // ----- how much is asked for

  /** data_size as main computes it on uint32_t: (num_samples+post_samples)*num_shots*sample_size. */
  function DataSize(pre: Word, post: Word, shots: Word, sampleSize: Word): Word {
    ((((pre + post) % WORD_LIMIT) * shots) % WORD_LIMIT * sampleSize) % WORD_LIMIT
  }

  /** The options that main lets through. */
  predicate AcceptedOptions(pre: Word, post: Word, shots: Word) {
    4 <= pre <= 0x1000_0000 && post <= 0x1000_0000 && 1 <= shots <= 0x1_0000
  }

  lemma {:induction false} ModOfMod(x: nat, y: nat)
    ensures ((x % WORD_LIMIT) * y) % WORD_LIMIT == (x * y) % WORD_LIMIT
  {
    var q, r := x / WORD_LIMIT, x % WORD_LIMIT;
    assert x * y == (q * y) * WORD_LIMIT + r * y;
    var p, m := (r * y) / WORD_LIMIT, (r * y) % WORD_LIMIT;
    DivModUnique(x * y, WORD_LIMIT, q * y + p, m);
  }

  lemma {:induction false} DataSizeIsMod(pre: Word, post: Word, shots: Word, sampleSize: Word)
    ensures DataSize(pre, post, shots, sampleSize) == ((pre + post) * shots * sampleSize) % WORD_LIMIT
  {
    ModOfMod(pre + post, shots);
    ModOfMod((pre + post) * shots, sampleSize);
  }

  /** For every accepted request of a known channel the buffer that main asks for has room for every
    sample exactly when the whole acquisition is smaller than 4 GiB. */
  lemma {:induction false} RoomPerSampleExact(pre: Word, post: Word, shots: Word, sampleSize: Word)
    requires AcceptedOptions(pre, post, shots) && sampleSize > 0
    ensures Whole(DataSize(pre, post, shots, sampleSize), sampleSize) == (pre + post) * shots
        <==> (pre + post) * shots * sampleSize < WORD_LIMIT
  {
    hide DataSize, Whole;
    DataSizeIsMod(pre, post, shots, sampleSize);
    RowsOfWrapped((pre + post) * shots, sampleSize, (pre + post) * shots * sampleSize);
  }

  lemma {:induction false} RowsOfWrapped(samples: nat, sampleSize: nat, bytes: nat)
    requires sampleSize > 0 && bytes == samples * sampleSize
    ensures Whole(bytes % WORD_LIMIT, sampleSize) == samples <==> bytes < WORD_LIMIT
  {
    if bytes < WORD_LIMIT {
      DivModUnique(bytes, WORD_LIMIT, 0, bytes);
      DivModUnique(bytes, sampleSize, samples, 0);
    }
  }

  /** The bounds of the options do not ensure that: for a single shot of 2^28 samples of 16 bytes,
    which they let through, the buffer is empty. */
  lemma {:induction false} AcceptedButEmpty()
    ensures AcceptedOptions(0x1000_0000, 0, 1) && DataSize(0x1000_0000, 0, 1, 16) == 0
  {
  }

  // ----- the specialised loop

  /** print_data of acq_trigger.c: channels 0 and 1 are four int16_t, all others four int32_t. */
  method PrintFour(chan: Word, data: Bytes, size: Word, interrupted: nat -> bool) returns (rows: seq<Row>)
    requires size <= |data|
    ensures var width := if chan == 0 || chan == 1 then 2 else 4;
            var n := Printed(interrupted, Whole(size, width * 4));
            n * (width * 4) <= |data| && rows == RowsOf(data, n, width, 4)
  {
    rows := [];
    if chan == 0 || chan == 1 {
      rows := PrintFourOf(data, 2, size, interrupted);
    } else {
      rows := PrintFourOf(data, 4, size, interrupted);
    }
  }

  /** One branch of it, for elements of a width: elements i*4 to i*4+3 for each row. */
  method PrintFourOf(data: Bytes, width: Word, size: Word, interrupted: nat -> bool) returns (rows: seq<Row>)
    requires width in {2, 4} && size <= |data|
    ensures var n := Printed(interrupted, Whole(size, width * 4));
            n * (width * 4) <= |data| && rows == RowsOf(data, n, width, 4)
  {
    hide AtomsOf, Element, Whole;
    rows := [];
    NestedDivision(size, width);
    var i: Word := 0;
    while i < Whole(Whole(size, width), 4)
      invariant i <= Whole(Whole(size, width), 4)
      invariant forall j :: 0 <= j < i ==> !interrupted(j)
      invariant i * (width * 4) <= |data| && rows == RowsOf(data, i, width, 4)
    {
      if interrupted(i) {
        break;
      }
      MulMonotone(i + 1, Whole(size, width * 4), width * 4);
      var e := i * 4;
      FourAtoms(data, i, width);
      var row := [Element(data, width, e), Element(data, width, e + 1),
                  Element(data, width, e + 2), Element(data, width, e + 3)];
      rows := rows + [row];
      i := i + 1;
    }
    PrintedIs(interrupted, Whole(size, width * 4), i);
  }

  /** raw_data[e] for elements of a width. */
  function Element(data: Bytes, width: nat, e: nat): Bytes
    requires (e + 1) * width <= |data|
  {
    MulMonotone(e, e + 1, width);
    data[e * width..(e + 1) * width]
  }

  lemma {:induction false} NestedDivision(size: nat, width: nat)
    requires width > 0
    ensures Whole(Whole(size, width), 4) == Whole(size, width * 4)
  {
    var a, r := Whole(size, width), size % width;
    var q, s := Whole(a, 4), a % 4;
    assert size == (q * 4 + s) * width + r;
    assert (q * 4 + s) * width == q * (width * 4) + s * width;
    if s < 3 {
      MulGrows(s, 3, width);
    }
    DivModUnique(size, width * 4, q, s * width + r);
  }

  lemma {:induction false} FourAtoms(data: Bytes, i: nat, width: nat)
    requires width in {2, 4} && (i + 1) * (width * 4) <= |data|
    ensures (i * 4 + 1) * width <= |data| && (i * 4 + 2) * width <= |data|
    ensures (i * 4 + 3) * width <= |data| && (i * 4 + 4) * width <= |data|
    ensures AtomsOf(data, i, 4, width, 4)
         == [Element(data, width, i * 4), Element(data, width, i * 4 + 1),
             Element(data, width, i * 4 + 2), Element(data, width, i * 4 + 3)]
  {
    hide Element, AtomsOf;
    AtomIsElement(data, i, 0, width);
    AtomIsElement(data, i, 1, width);
    AtomIsElement(data, i, 2, width);
    AtomIsElement(data, i, 3, width);
    NoAtoms(data, i, width);
  }

  lemma {:induction false} NoAtoms(data: Bytes, i: nat, width: nat)
    requires width in {2, 4} && (i + 1) * (width * 4) <= |data|
    ensures AtomsOf(data, i, 0, width, 4) == []
  {
  }

  lemma {:induction false} AtomIsElement(data: Bytes, i: nat, k: nat, width: nat)
    requires width in {2, 4} && k < 4 && (i + 1) * (width * 4) <= |data|
    ensures (i * 4 + k + 1) * width <= |data|
    ensures AtomsOf(data, i, k + 1, width, 4) == AtomsOf(data, i, k, width, 4) + [Element(data, width, i * 4 + k)]
  {
    assert (i * 4 + 4) * width == (i + 1) * (width * 4);
    MulMonotone(i * 4 + k + 1, i * 4 + 4, width);
    assert Start(i, k, width, 4) == (i * 4 + k) * width;
    assert (i * 4 + k + 1) * width == (i * 4 + k) * width + width;
  }
}
