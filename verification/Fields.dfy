/** Fields of a 32-bit register: how the register-access macros combine a field with the word
  around it, and what a list of such writes does to a word. */
module Fields {
  import opened Bits
  import opened Wbgen

  const WORD_LIMIT: nat := 0x1_0000_0000

  /** uint32_t. */
  type Word = w: nat | w < WORD_LIMIT witness 0

  /** A field as a register header defines it.  `single` fields are a lone mask and are used with
    SINGLE_BIT_PARAM; `wide` ones come from the 64-bit WBGEN2_DSP_* macros. */
  datatype Field = Field(offset: nat, size: nat, single: bool, wide: bool) {

    /** The field lies in a 32-bit register, and the macros that access it are defined: the int
      ones shift 1 left by at most 30. */
    predicate Valid() {
      && 1 <= size
      && offset + size <= 32
      && (single ==> size == 1)
      && (!wide ==> size <= 30)
    }

    function Width(): nat {
      if wide then 64 else 32
    }

    function Mask(): nat {
      Wbgen.Mask(Width(), offset, size)
    }

    predicate Covers(i: nat) {
      offset <= i < offset + size
    }

    /** What is left of a value once it has been stored in the field. */
    function Norm(value: Word): nat {
      if single then (if value != 0 then 1 else 0) else Trunc(size, value)
    }
  }

  predicate Disjoint(f: Field, g: Field) {
    f.offset + f.size <= g.offset || g.offset + g.size <= f.offset
  }

  /** Storing a result in a uint32_t. */
  function Store32(a: nat): (w: Word)
    ensures w == Trunc(32, a)
  {
    TruncFits(32, a);
    Pow2At32();
    Trunc(32, a)
  }

  /** The new register word of SET_PARAM_GEN with SET_FIELD. */
  function SetWord(word: Word, f: Field, value: Word): Word {
    if f.single then
      if value != 0 then Store32(Or(word, f.Mask())) else Store32(And(word, Not(f.Width(), f.Mask())))
    else
      Store32(Or(And(word, Not(f.Width(), f.Mask())), Write(f.Width(), value, f.offset, f.size)))
  }

  /** The new register word of SET_PARAM_GEN with CLR_FIELD on a multi-bit field. */
  function ClearWord(word: Word, f: Field): Word {
    Store32(And(word, Not(f.Width(), f.Mask())))
  }

  /** The value GET_PARAM_GEN extracts from a register word. */
  function Decode(word: Word, f: Field): nat {
    if f.single then (if And(word, f.Mask()) != 0 then 1 else 0)
    else Read(word, f.offset, f.size)
  }

  // ----- one write

  lemma {:induction false} BitOfNorm(f: Field, value: Word, i: nat)
    ensures Bit(f.Norm(value), i)
         == if f.single then i == 0 && value != 0 else i < f.size && Bit(value, i)
  {
    BitOfTrunc(f.size, value, i);
    if i > 0 {
      BitOfZero(i - 1);
    }
  }

  /** The bits of a field take the value, all others stay: the contract of a register write. */
  lemma {:induction false} BitOfSetWord(word: Word, f: Field, value: Word, i: nat)
    requires f.Valid()
    ensures Bit(SetWord(word, f, value), i)
         == if f.Covers(i) then Bit(f.Norm(value), i - f.offset) else Bit(word, i)
  {
    var m, w := f.Mask(), f.Width();
    var cleared := And(word, Not(w, m));
    BitOfTrunc(32, Or(word, m), i);
    BitOfTrunc(32, cleared, i);
    BitOfTrunc(32, Or(cleared, Write(w, value, f.offset, f.size)), i);
    BitOfOr(word, m, i);
    BitOfOr(cleared, Write(w, value, f.offset, f.size), i);
    BitOfAnd(word, Not(w, m), i);
    BitOfNot(w, m, i);
    BitOfMask(w, f.offset, f.size, i);
    BitOfWrite(w, value, f.offset, f.size, i);
    if f.Covers(i) {
      BitOfNorm(f, value, i - f.offset);
    }
    if i >= 32 {
      Pow2At32();
      BitsAbove(word, 32, i);
    }
  }

  lemma {:induction false} BitOfDecode(word: Word, f: Field, i: nat)
    requires f.Valid()
    ensures Bit(Decode(word, f), i) == (i < f.size && Bit(word, i + f.offset))
  {
    BitOfRead(word, f.offset, f.size, i);
    if f.single {
      var m := And(word, f.Mask());
      BitOfAnd(word, f.Mask(), f.offset);
      BitOfMask(f.Width(), f.offset, f.size, f.offset);
      if m == 0 {
        BitOfZero(f.offset);
      } else {
        var j := NonzeroHasBit(m);
        BitOfAnd(word, f.Mask(), j);
        BitOfMask(f.Width(), f.offset, f.size, j);
      }
      BitOfZero(i);
      if i > 0 {
        BitOfZero(i - 1);
      }
    }
  }

  /** GET extracts the field's digits of the register, single-bit or not. */
  lemma {:induction false} DecodeIsDivMod(word: Word, f: Field)
    requires f.Valid()
    ensures Decode(word, f) == (word / Pow2(f.offset)) % Pow2(f.size)
    ensures Decode(word, f) < Pow2(f.size)
  {
    forall i: nat
      ensures Bit(Decode(word, f), i) == Bit(Read(word, f.offset, f.size), i)
    {
      BitOfDecode(word, f, i);
      BitOfRead(word, f.offset, f.size, i);
    }
    Extensional(Decode(word, f), Read(word, f.offset, f.size));
    ReadIsDivMod(word, f.offset, f.size);
  }

  /** A multi-bit field keeps a value modulo 2^size; a single bit keeps whether it is non-zero. */
  lemma {:induction false} NormIsMod(f: Field, value: Word)
    requires f.Valid()
    ensures f.Norm(value) == if f.single then (if value != 0 then 1 else 0) else value % Pow2(f.size)
    ensures f.Norm(value) < Pow2(f.size)
  {
    TruncIsMod(f.size, value);
  }

  /** What is set is what is read back. */
  lemma {:induction false} GetOfSet(word: Word, f: Field, value: Word)
    requires f.Valid()
    ensures Decode(SetWord(word, f, value), f) == f.Norm(value)
  {
    var w' := SetWord(word, f, value);
    forall i: nat
      ensures Bit(Decode(w', f), i) == Bit(f.Norm(value), i)
    {
      BitOfDecode(w', f, i);
      BitOfSetWord(word, f, value, i + f.offset);
      BitOfNorm(f, value, i);
    }
    Extensional(Decode(w', f), f.Norm(value));
  }

  /** Setting a field leaves every disjoint field alone. */
  lemma {:induction false} GetOfOther(word: Word, f: Field, value: Word, g: Field)
    requires f.Valid() && g.Valid() && Disjoint(f, g)
    ensures Decode(SetWord(word, f, value), g) == Decode(word, g)
  {
    var w' := SetWord(word, f, value);
    forall i: nat
      ensures Bit(Decode(w', g), i) == Bit(Decode(word, g), i)
    {
      BitOfDecode(w', g, i);
      BitOfDecode(word, g, i);
      BitOfSetWord(word, f, value, i + g.offset);
    }
    Extensional(Decode(w', g), Decode(word, g));
  }

  /** CLR_FIELD is a SET of zero. */
  lemma {:induction false} ClearIsSetZero(word: Word, f: Field)
    requires f.Valid() && !f.single
    ensures ClearWord(word, f) == SetWord(word, f, 0)
  {
    var m, w := f.Mask(), f.Width();
    var cleared := And(word, Not(w, m));
    forall i: nat
      ensures Bit(ClearWord(word, f), i) == Bit(SetWord(word, f, 0), i)
    {
      BitOfSetWord(word, f, 0, i);
      BitOfTrunc(32, cleared, i);
      BitOfAnd(word, Not(w, m), i);
      BitOfNot(w, m, i);
      BitOfMask(w, f.offset, f.size, i);
      if f.Covers(i) {
        BitOfNorm(f, 0, i - f.offset);
        BitOfZero(i - f.offset);
      }
      if i >= 32 {
        Pow2At32();
        BitsAbove(word, 32, i);
      }
    }
    Extensional(ClearWord(word, f), SetWord(word, f, 0));
  }

  /** Two words hold the same bits outside a field. */
  ghost predicate AgreeOutside(a: Word, b: Word, f: Field) {
    forall i: nat :: !f.Covers(i) ==> Bit(a, i) == Bit(b, i)
  }

  /** A write computed from word a lands correctly on word b exactly when a and b differ at most
    inside the field: the condition under which a stale read is harmless. */
  lemma {:induction false} StaleReadHarmless(a: Word, b: Word, f: Field, value: Word)
    requires f.Valid()
    ensures SetWord(a, f, value) == SetWord(b, f, value) <==> AgreeOutside(a, b, f)
  {
    forall i: nat
      ensures Bit(SetWord(a, f, value), i) == Bit(SetWord(b, f, value), i)
           <==> f.Covers(i) || Bit(a, i) == Bit(b, i)
    {
      BitOfSetWord(a, f, value, i);
      BitOfSetWord(b, f, value, i);
    }
    if AgreeOutside(a, b, f) {
      Extensional(SetWord(a, f, value), SetWord(b, f, value));
    }
  }

  // ----- a list of writes to one word

  datatype FieldWrite = FieldWrite(field: Field, value: Word)

  function WriteAll(word: Word, ws: seq<FieldWrite>): Word {
    if ws == [] then word
    else
      var last := ws[|ws| - 1];
      SetWord(WriteAll(word, ws[..|ws| - 1]), last.field, last.value)
  }

  ghost predicate AllValid(fs: seq<Field>) {
    forall k :: 0 <= k < |fs| ==> fs[k].Valid()
  }

  ghost predicate PairwiseDisjoint(fs: seq<Field>) {
    forall j, k :: 0 <= j < k < |fs| ==> Disjoint(fs[j], fs[k])
  }

  function FieldsOf(ws: seq<FieldWrite>): (fs: seq<Field>)
    ensures |fs| == |ws| && forall k :: 0 <= k < |ws| ==> fs[k] == ws[k].field
  {
    seq(|ws|, k requires 0 <= k < |ws| => ws[k].field)
  }

  lemma {:induction false} UncoveredBit(word: Word, ws: seq<FieldWrite>, i: nat)
    requires AllValid(FieldsOf(ws))
    requires forall k :: 0 <= k < |ws| ==> !ws[k].field.Covers(i)
    ensures Bit(WriteAll(word, ws), i) == Bit(word, i)
    decreases |ws|
  {
    if ws != [] {
      var n := |ws| - 1;
      assert FieldsOf(ws)[n].Valid();
      assert forall k :: 0 <= k < n ==> FieldsOf(ws[..n])[k] == FieldsOf(ws)[k];
      UncoveredBit(word, ws[..n], i);
      BitOfSetWord(WriteAll(word, ws[..n]), ws[n].field, ws[n].value, i);
    }
  }

  lemma {:induction false} CoveredBit(word: Word, ws: seq<FieldWrite>, k: nat, i: nat)
    requires AllValid(FieldsOf(ws)) && PairwiseDisjoint(FieldsOf(ws))
    requires k < |ws| && ws[k].field.Covers(i)
    ensures Bit(WriteAll(word, ws), i) == Bit(ws[k].field.Norm(ws[k].value), i - ws[k].field.offset)
    decreases |ws|
  {
    hide Bit, SetWord;
    var n := |ws| - 1;
    assert FieldsOf(ws)[n].Valid();
    BitOfSetWord(WriteAll(word, ws[..n]), ws[n].field, ws[n].value, i);
    if k < n {
      assert Disjoint(FieldsOf(ws)[k], FieldsOf(ws)[n]);
      assert forall j :: 0 <= j < n ==> FieldsOf(ws[..n])[j] == FieldsOf(ws)[j];
      CoveredBit(word, ws[..n], k, i);
    }
  }

  /** Layout theorem: after any sequence of writes to pairwise disjoint fields, in whatever order,
    each field reads back its own value. */
  lemma {:induction false} EveryFieldReadsBack(word: Word, ws: seq<FieldWrite>, k: nat)
    requires AllValid(FieldsOf(ws)) && PairwiseDisjoint(FieldsOf(ws)) && k < |ws|
    ensures Decode(WriteAll(word, ws), ws[k].field) == ws[k].field.Norm(ws[k].value)
  {
    hide Bit, WriteAll, Decode;
    var f, w' := ws[k].field, WriteAll(word, ws);
    assert FieldsOf(ws)[k].Valid();
    forall i: nat
      ensures Bit(Decode(w', f), i) == Bit(f.Norm(ws[k].value), i)
    {
      BitOfDecode(w', f, i);
      BitOfNorm(f, ws[k].value, i);
      if i < f.size {
        CoveredBit(word, ws, k, i + f.offset);
      }
    }
    Extensional(Decode(w', f), f.Norm(ws[k].value));
  }

  lemma {:induction false} SameCoveredBit(word: Word, ws: seq<FieldWrite>, vs: seq<FieldWrite>, k: nat, i: nat)
    requires AllValid(FieldsOf(ws)) && PairwiseDisjoint(FieldsOf(ws))
    requires AllValid(FieldsOf(vs)) && PairwiseDisjoint(FieldsOf(vs))
    requires k < |ws| && ws[k].field.Covers(i) && ws[k] in vs
    ensures Bit(WriteAll(word, ws), i) == Bit(WriteAll(word, vs), i)
  {
    hide Bit, WriteAll;
    var j :| 0 <= j < |vs| && vs[j] == ws[k];
    CoveredBit(word, ws, k, i);
    CoveredBit(word, vs, j, i);
  }

  /** The order of the writes does not matter. */
  lemma {:induction false} WriteOrderIrrelevant(word: Word, ws: seq<FieldWrite>, vs: seq<FieldWrite>)
    requires AllValid(FieldsOf(ws)) && PairwiseDisjoint(FieldsOf(ws))
    requires AllValid(FieldsOf(vs)) && PairwiseDisjoint(FieldsOf(vs))
    requires forall x :: x in ws <==> x in vs
    ensures WriteAll(word, ws) == WriteAll(word, vs)
  {
    forall i: nat
      ensures Bit(WriteAll(word, ws), i) == Bit(WriteAll(word, vs), i)
    {
      if k :| 0 <= k < |ws| && ws[k].field.Covers(i) {
        SameCoveredBit(word, ws, vs, k, i);
      } else {
        forall j | 0 <= j < |vs|
          ensures !vs[j].field.Covers(i)
        {
          assert vs[j] in ws;
        }
        UncoveredBit(word, ws, i);
        UncoveredBit(word, vs, i);
      }
    }
    Extensional(WriteAll(word, ws), WriteAll(word, vs));
  }

  /** Each field with the value a word holds in it. */
  function DecodeAll(word: Word, fs: seq<Field>): (ws: seq<FieldWrite>)
    requires AllValid(fs)
    ensures FieldsOf(ws) == fs
  {
    seq(|fs|, k requires 0 <= k < |fs| =>
      DecodeFitsWord(word, fs[k]);
      FieldWrite(fs[k], Decode(word, fs[k])))
  }

  lemma {:induction false} DecodeFitsWord(word: Word, f: Field)
    requires f.Valid()
    ensures Decode(word, f) < WORD_LIMIT
  {
    DecodeIsDivMod(word, f);
    Pow2At32();
    Pow2Order(f.size, 32);
  }

  /** From the k-th on the fields follow each other from bit `start` to bit 31 with no gap. */
  predicate TilesFrom(fs: seq<Field>, k: nat, start: nat)
    requires k <= |fs|
    decreases |fs| - k
  {
    if k == |fs| then start == 32
    else fs[k].Valid() && fs[k].offset == start && TilesFrom(fs, k + 1, start + fs[k].size)
  }

  predicate Tiles(fs: seq<Field>) {
    TilesFrom(fs, 0, 0)
  }

  lemma {:induction false} TilesFacts(fs: seq<Field>, k: nat, start: nat)
    requires k <= |fs| && TilesFrom(fs, k, start)
    ensures forall j :: k <= j < |fs| ==> fs[j].Valid() && fs[j].offset >= start
    ensures forall i, j :: k <= i < j < |fs| ==> Disjoint(fs[i], fs[j])
    decreases |fs| - k
  {
    if k < |fs| {
      TilesFacts(fs, k + 1, start + fs[k].size);
    }
  }

  lemma {:induction false} TileAt(fs: seq<Field>, k: nat, start: nat, i: nat) returns (j: nat)
    requires k <= |fs| && TilesFrom(fs, k, start) && start <= i < 32
    ensures j < |fs| && fs[j].Covers(i)
    decreases |fs| - k
  {
    if fs[k].Covers(i) {
      j := k;
    } else {
      j := TileAt(fs, k + 1, start + fs[k].size, i);
    }
  }

  ghost predicate Covered(fs: seq<Field>, i: nat) {
    exists k :: 0 <= k < |fs| && fs[k].Covers(i)
  }

  /** Reading every field of `word` and writing them all over `other` takes the covered bits from
    the first and leaves the rest of the second. */
  lemma {:induction false} RebuiltBit(word: Word, other: Word, fs: seq<Field>, i: nat)
    requires AllValid(fs) && PairwiseDisjoint(fs)
    ensures Bit(WriteAll(other, DecodeAll(word, fs)), i)
         == if Covered(fs, i) then Bit(word, i) else Bit(other, i)
  {
    hide WriteAll, Trunc, And, Read, Wbgen.Mask;
    var ws := DecodeAll(word, fs);
    assert forall k :: 0 <= k < |fs| ==> FieldsOf(ws)[k] == fs[k] == ws[k].field;
    if k :| 0 <= k < |fs| && fs[k].Covers(i) {
      CoveredBit(other, ws, k, i);
      BitOfNorm(fs[k], ws[k].value, i - fs[k].offset);
      BitOfDecode(word, fs[k], i - fs[k].offset);
    } else {
      UncoveredBit(other, ws, i);
    }
  }

  /** Decode followed by encode gives the register back exactly when the word written over holds
    the same bits wherever no field lies. */
  lemma {:induction false} RebuildExact(word: Word, other: Word, fs: seq<Field>)
    requires AllValid(fs) && PairwiseDisjoint(fs)
    ensures WriteAll(other, DecodeAll(word, fs)) == word
        <==> forall i: nat :: Covered(fs, i) || Bit(other, i) == Bit(word, i)
  {
    var built := WriteAll(other, DecodeAll(word, fs));
    forall i: nat
      ensures Bit(built, i) == if Covered(fs, i) then Bit(word, i) else Bit(other, i)
    {
      RebuiltBit(word, other, fs, i);
    }
    if forall i: nat :: Covered(fs, i) || Bit(other, i) == Bit(word, i) {
      Extensional(built, word);
    }
  }

  /** When the fields tile the register nothing of the old word is left: decode and encode are
    inverse. */
  lemma {:induction false} DecodeThenEncode(word: Word, other: Word, fs: seq<Field>)
    requires Tiles(fs)
    ensures AllValid(fs) && PairwiseDisjoint(fs)
    ensures WriteAll(other, DecodeAll(word, fs)) == word
  {
    TilesFacts(fs, 0, 0);
    forall i: nat
      ensures Covered(fs, i) || Bit(other, i) == Bit(word, i)
    {
      if i < 32 {
        var k := TileAt(fs, 0, 0, i);
      } else {
        Pow2At32();
        BitsAbove(other, 32, i);
        BitsAbove(word, 32, i);
      }
    }
    RebuildExact(word, other, fs);
  }
}
