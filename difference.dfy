/** SimCity2000Parser/SectionDifference.cs: one reported change, as a triple of
    field name, old value and new value. The decoder renders all three as text;
    here they keep the values they are rendered from. */
module SectionDifference {
  import opened StreamUtils

  datatype FieldName =
    | LengthField                    // "Length"
    | FileOffset(offset: int)        // a byte's position in the save file
    | DataIndex(index: nat)          // an index into the MISC integers
    | Tile(x: nat, y: nat)           // an altitude tile, written "x, y"

  datatype Value =
    | Absent                                   // the empty string
    | Number(n: int)
    | Byte(b: byte)
    | AltitudeValue(altitude: int, water: bool)

  datatype SectionDifference = SectionDifference(fieldName: FieldName, oldValue: Value, newValue: Value)

  /** The same change seen from the other side. */
  function Swap(d: SectionDifference): SectionDifference {
    SectionDifference(d.fieldName, d.newValue, d.oldValue)
  }

  function SwapAll(ds: seq<SectionDifference>): (r: seq<SectionDifference>)
    ensures |r| == |ds| && forall k :: 0 <= k < |ds| ==> r[k] == Swap(ds[k])
  {
    seq(|ds|, k requires 0 <= k < |ds| => Swap(ds[k]))
  }

  /** Swapping distributes over concatenation. */
  lemma {:induction false} SwapAllConcat(a: seq<SectionDifference>, b: seq<SectionDifference>)
    ensures SwapAll(a + b) == SwapAll(a) + SwapAll(b)
  {
  }

  /** Two swapped parts concatenate to the swapped whole. */
  lemma SwapAllJoin(a: seq<SectionDifference>, b: seq<SectionDifference>, a': seq<SectionDifference>, b': seq<SectionDifference>)
    requires SwapAll(a) == a' && SwapAll(b) == b'
    ensures SwapAll(a + b) == a' + b'
  {
    SwapAllConcat(a, b);
  }

  /** Swapping twice gives the entries back. */
  lemma SwapAllTwice(a: seq<SectionDifference>)
    ensures SwapAll(SwapAll(a)) == a
  {
  }
}
