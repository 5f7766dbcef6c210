/** Packed RTL words: fields inserted into and extracted from one integer. */
module BitLayout {
  import opened Wrappers
  import opened Bits

  datatype Field = Field(lsb: nat, width: nat)

  function Mask(f: Field): (mask: nat)
    ensures mask + 1 == Shl(1, f.width)
  {
    BitMask(f.width, 0);
    Shl(1, f.width) - 1
  }

  predicate Inside(f: Field, i: nat) {
    f.lsb <= i < f.lsb + f.width
  }

  predicate Fits(f: Field, value: nat) {
    value < Shl(1, f.width)
  }

  datatype PackError = NegativeValue | DoesNotFit | TooWide

  function Placed(word: nat, f: Field, value: nat): nat {
    Or(AndNot(word, Shl(Mask(f), f.lsb)), Shl(value, f.lsb))
  }

  /** Inserting a value that fits; the other values are refused. */
  function InsertField(word: nat, f: Field, value: int): Result<nat, PackError> {
    if value < 0 then Err(NegativeValue)
    else if value > Mask(f) then Err(DoesNotFit)
    else Ok(Placed(word, f, value))
  }

  function ExtractField(word: nat, f: Field): nat {
    And(Shr(word, f.lsb), Mask(f))
  }

  // ----- what the operations do to bits

  lemma PlacedBit(word: nat, f: Field, value: nat, i: nat)
    requires Fits(f, value)
    ensures Bit(Placed(word, f, value), i) <==> if Inside(f, i) then Bit(value, i - f.lsb) else Bit(word, i)
  {
    hide Bit, Or, AndNot, Shl;
    var shifted := Shl(Mask(f), f.lsb);
    BitOr(AndNot(word, shifted), Shl(value, f.lsb), i);
    BitAndNot(word, shifted, i);
    BitShl(Mask(f), f.lsb, i);
    BitShl(value, f.lsb, i);
    BelowExactly(value, f.width);
    if i >= f.lsb {
      BitMask(f.width, i - f.lsb);
    }
  }

  lemma ExtractedBit(word: nat, f: Field, i: nat)
    ensures Bit(ExtractField(word, f), i) <==> i < f.width && Bit(word, f.lsb + i)
  {
    hide Bit, And, Shl, Shr;
    BitAnd(Shr(word, f.lsb), Mask(f), i);
    BitShr(word, f.lsb, i);
    BitMask(f.width, i);
  }

  /** What is inserted is what is extracted, and what fits. */
  lemma InsertThenExtract(word: nat, f: Field, value: nat)
    requires Fits(f, value)
    ensures ExtractField(Placed(word, f, value), f) == value
  {
    hide Bit, ExtractField, Placed, Shl;
    BelowExactly(value, f.width);
    forall i: nat ensures Bit(ExtractField(Placed(word, f, value), f), i) <==> Bit(value, i) {
      ExtractedBit(Placed(word, f, value), f, i);
      PlacedBit(word, f, value, f.lsb + i);
    }
    SameBits(ExtractField(Placed(word, f, value), f), value);
  }

  predicate Disjoint(f: Field, g: Field) {
    f.lsb + f.width <= g.lsb || g.lsb + g.width <= f.lsb
  }

  /** Inserting one field preserves every other. */
  lemma InsertPreservesOthers(word: nat, f: Field, value: nat, g: Field)
    requires Fits(f, value) && Disjoint(f, g)
    ensures ExtractField(Placed(word, f, value), g) == ExtractField(word, g)
  {
    hide Bit, ExtractField, Placed, Shl;
    forall i: nat ensures Bit(ExtractField(Placed(word, f, value), g), i) <==> Bit(ExtractField(word, g), i) {
      ExtractedBit(Placed(word, f, value), g, i);
      ExtractedBit(word, g, i);
      PlacedBit(word, f, value, g.lsb + i);
    }
    SameBits(ExtractField(Placed(word, f, value), g), ExtractField(word, g));
  }

  lemma ExtractedFits(word: nat, f: Field)
    ensures Fits(f, ExtractField(word, f))
  {
    hide Bit, ExtractField, Shl;
    forall i: nat | i >= f.width ensures !Bit(ExtractField(word, f), i) {
      ExtractedBit(word, f, i);
    }
    BelowExactly(ExtractField(word, f), f.width);
  }

  // ----- whole layouts, the most significant field first

  predicate Tiles(fields: seq<Field>, width: nat) {
    if fields == [] then width == 0
    else fields[0].lsb + fields[0].width == width && Tiles(fields[1..], fields[0].lsb)
  }

  predicate AllFit(fields: seq<Field>, values: seq<nat>) {
    |fields| == |values| && forall k :: 0 <= k < |fields| ==> Fits(fields[k], values[k])
  }

  /** Inserting every value in turn, the most significant field first. */
  function PlaceAll(word: nat, fields: seq<Field>, values: seq<nat>): nat
    requires |fields| == |values|
    decreases |fields|
  {
    if fields == [] then word
    else PlaceAll(Placed(word, fields[0], values[0]), fields[1..], values[1..])
  }

  function Unpack(word: nat, fields: seq<Field>): (values: seq<nat>)
    ensures |values| == |fields|
  {
    seq(|fields|, k requires 0 <= k < |fields| => ExtractField(word, fields[k]))
  }

  lemma {:induction false} TilesBelow(fields: seq<Field>, width: nat, k: nat)
    requires Tiles(fields, width) && k < |fields|
    ensures fields[k].lsb + fields[k].width <= width
  {
    if k > 0 {
      TilesBelow(fields[1..], fields[0].lsb, k - 1);
    }
  }

  /** Inserting into the lower part of a word leaves the fields above it alone. */
  lemma {:induction false} PlaceAllPreserves(word: nat, fields: seq<Field>, values: seq<nat>, width: nat, g: Field)
    requires Tiles(fields, width) && AllFit(fields, values) && width <= g.lsb
    ensures ExtractField(PlaceAll(word, fields, values), g) == ExtractField(word, g)
    decreases |fields|
  {
    hide ExtractField, Placed, Fits;
    if fields != [] {
      InsertPreservesOthers(word, fields[0], values[0], g);
      PlaceAllPreserves(Placed(word, fields[0], values[0]), fields[1..], values[1..], fields[0].lsb, g);
    }
  }

  /** Unpacking a packed word returns every value. */
  lemma {:induction false} UnpackPacked(word: nat, fields: seq<Field>, values: seq<nat>, width: nat)
    requires Tiles(fields, width) && AllFit(fields, values)
    ensures Unpack(PlaceAll(word, fields, values), fields) == values
    decreases |fields|
  {
    hide ExtractField, Placed, Fits;
    if fields != [] {
      var first := Placed(word, fields[0], values[0]);
      InsertThenExtract(word, fields[0], values[0]);
      PlaceAllPreserves(first, fields[1..], values[1..], fields[0].lsb, fields[0]);
      UnpackPacked(first, fields[1..], values[1..], fields[0].lsb);
      var packed := PlaceAll(word, fields, values);
      assert Unpack(packed, fields)[1..] == Unpack(packed, fields[1..]);
      assert Unpack(packed, fields)[0] == values[0];
    }
  }

  /** A field outside the inserted ones is untouched; a bit inside comes from its field. */
  lemma {:induction false} PackedBits(word: nat, source: nat, fields: seq<Field>, width: nat, i: nat)
    requires Tiles(fields, width)
    ensures AllFit(fields, Unpack(source, fields))
    ensures Bit(PlaceAll(word, fields, Unpack(source, fields)), i)
       <==> if i < width then Bit(source, i) else Bit(word, i)
    decreases |fields|
  {
    hide ExtractField, Placed, Fits, Bit;
    if fields != [] {
      var f := fields[0];
      var value := ExtractField(source, f);
      ExtractedFits(source, f);
      assert Unpack(source, fields)[1..] == Unpack(source, fields[1..]);
      PackedBits(Placed(word, f, value), source, fields[1..], f.lsb, i);
      PlacedBit(word, f, value, i);
      if f.lsb <= i {
        ExtractedBit(source, f, i - f.lsb);
      }
    }
  }

  /** Re-inserting the unpacked fields rebuilds any word of the layout's width, whatever was there before. */
  lemma RepackUnpacked(word: nat, before: nat, fields: seq<Field>, width: nat)
    requires Tiles(fields, width) && word < Shl(1, width) && before < Shl(1, width)
    ensures PlaceAll(before, fields, Unpack(word, fields)) == word
  {
    hide Bit, PlaceAll, Unpack, Shl;
    BelowExactly(word, width);
    BelowExactly(before, width);
    var rebuilt := PlaceAll(before, fields, Unpack(word, fields));
    forall i: nat ensures Bit(rebuilt, i) <==> Bit(word, i) {
      PackedBits(before, word, fields, width, i);
    }
    SameBits(rebuilt, word);
  }

  /** Values that fit never exceed the layout's width. */
  lemma {:induction false} PackedBelow(word: nat, fields: seq<Field>, values: seq<nat>, width: nat, limit: nat)
    requires Tiles(fields, width) && AllFit(fields, values) && width <= limit && word < Shl(1, limit)
    ensures PlaceAll(word, fields, values) < Shl(1, limit)
    decreases |fields|
  {
    hide Bit, Placed, Fits, Shl;
    if fields != [] {
      var next := Placed(word, fields[0], values[0]);
      BelowExactly(word, limit);
      forall i: nat | i >= limit ensures !Bit(next, i) {
        PlacedBit(word, fields[0], values[0], i);
      }
      BelowExactly(next, limit);
      PackedBelow(next, fields[1..], values[1..], fields[0].lsb, limit);
    }
  }

  // ----- packing with its checks

  /** The source's packing: each insertion may refuse its value, and the finished word is checked once more. */
  function InsertAll(word: nat, fields: seq<Field>, values: seq<int>): Result<nat, PackError>
    requires |fields| == |values|
    decreases |fields|
  {
    if fields == [] then Ok(word)
    else
      var first := InsertField(word, fields[0], values[0]);
      if first.Err? then first else InsertAll(first.value, fields[1..], values[1..])
  }

  function Pack(fields: seq<Field>, width: nat, values: seq<int>): Result<nat, PackError>
    requires |fields| == |values|
  {
    var packed := InsertAll(0, fields, values);
    if packed.Ok? && packed.value >= Shl(1, width) then Err(TooWide) else packed
  }

  predicate InRange(fields: seq<Field>, values: seq<int>) {
    |fields| == |values| && forall k :: 0 <= k < |fields| ==> 0 <= values[k] < Shl(1, fields[k].width)
  }

  function Naturals(values: seq<int>): (ns: seq<nat>)
    requires forall k :: 0 <= k < |values| ==> values[k] >= 0
    ensures |ns| == |values| && forall k :: 0 <= k < |values| ==> ns[k] == values[k]
  {
    seq(|values|, k requires 0 <= k < |values| => values[k] as nat)
  }

  lemma {:induction false} InsertAllExactly(word: nat, fields: seq<Field>, values: seq<int>)
    requires |fields| == |values|
    ensures InsertAll(word, fields, values).Ok? <==> InRange(fields, values)
    ensures InRange(fields, values) ==> InsertAll(word, fields, values) == Ok(PlaceAll(word, fields, Naturals(values)))
    decreases |fields|
  {
    hide Placed, Shl;
    if fields != [] {
      var f, v := fields[0], values[0];
      if 0 <= v < Shl(1, f.width) {
        InsertAllExactly(Placed(word, f, v), fields[1..], values[1..]);
        if InRange(fields, values) {
          assert Naturals(values)[1..] == Naturals(values[1..]);
        }
      }
    }
  }

  /** Packing fails exactly when a value is out of range; the width check never fires; unpacking undoes it. */
  lemma PackExactly(fields: seq<Field>, width: nat, values: seq<int>)
    requires Tiles(fields, width) && |fields| == |values|
    ensures Pack(fields, width, values).Ok? <==> InRange(fields, values)
    ensures Pack(fields, width, values) != Err(TooWide)
    ensures InRange(fields, values) ==>
      var word := Pack(fields, width, values).value;
      word < Shl(1, width) && Unpack(word, fields) == Naturals(values)
  {
    hide Shl, Unpack, PlaceAll, Tiles, Placed, InsertAll;
    InsertAllExactly(0, fields, values);
    if InRange(fields, values) {
      BitMask(width, 0);
      PackedBelow(0, fields, Naturals(values), width, width);
      UnpackPacked(0, fields, Naturals(values), width);
    } else {
      NeverTooWide(0, fields, values);
    }
  }

  lemma {:induction false} NeverTooWide(word: nat, fields: seq<Field>, values: seq<int>)
    requires |fields| == |values|
    ensures InsertAll(word, fields, values) != Err(TooWide)
    decreases |fields|
  {
    hide Placed;
    if fields != [] && InsertField(word, fields[0], values[0]).Ok? {
      NeverTooWide(InsertField(word, fields[0], values[0]).value, fields[1..], values[1..]);
    }
  }

  /** Unpacking is injective: any word of the layout's width packs again from its own fields. */
  lemma UnpackedPacks(word: nat, fields: seq<Field>, width: nat)
    requires Tiles(fields, width) && word < Shl(1, width)
    ensures Pack(fields, width, Unpack(word, fields)) == Ok(word)
  {
    hide Shl, PlaceAll, Tiles, Placed, InsertAll;
    var values := Unpack(word, fields);
    PackedBits(0, word, fields, width, 0);
    InsertAllExactly(0, fields, values);
    assert Naturals(values) == values;
    BitMask(width, 0);
    RepackUnpacked(word, 0, fields, width);
  }
}
