/**
 The locus table: the cut offsets handed to the crossover operators, built once
 per run from the number of stem-cell types and the number of fields per type.
 */
module Loci {

  /** The number of offsets that fall inside the stem-cell section of the genome. */
  function CellLoci(stemCellsTypes: nat, fieldsNumber: nat): nat
  {
    stemCellsTypes * fieldsNumber * 8
  }

  /** The length of the table: the stem-cell offsets plus seven per field. */
  function LociCount(stemCellsTypes: nat, fieldsNumber: nat): nat
  {
    CellLoci(stemCellsTypes, fieldsNumber) + 7 * fieldsNumber
  }

  /** The table as a value: the cell offsets one apart, then the global offsets two apart. */
  function LociTable(stemCellsTypes: nat, fieldsNumber: nat): seq<nat>
  {
    var cells := CellLoci(stemCellsTypes, fieldsNumber);
    seq(cells, i => i) + seq(7 * fieldsNumber, i => cells + 2 * i)
  }

  /** Fills the table with the two loops that build `genesLoci`. */
  method BuildLociTable(stemCellsTypes: nat, fieldsNumber: nat) returns (genesLoci: array<nat>)
    ensures genesLoci[..] == LociTable(stemCellsTypes, fieldsNumber)
  {
    var cells := CellLoci(stemCellsTypes, fieldsNumber);
    var globals := 7 * fieldsNumber;
    genesLoci := new nat[cells + globals];
    for i := 0 to cells
      invariant forall k :: 0 <= k < i ==> genesLoci[k] == k
    {
      genesLoci[i] := i;
    }
    for i := 0 to globals
      invariant forall k :: 0 <= k < cells ==> genesLoci[k] == k
      invariant forall k :: 0 <= k < i ==> genesLoci[cells + k] == cells + 2 * k
    {
      genesLoci[cells + i] := cells + 2 * i;
    }
    ghost var head, tail := seq(cells, k => k), seq(globals, k => cells + 2 * k);
    assert LociTable(stemCellsTypes, fieldsNumber) == head + tail;
    forall k | 0 <= k < genesLoci.Length
      ensures genesLoci[k] == (head + tail)[k]
    {
      if k >= cells {
        assert genesLoci[cells + (k - cells)] == cells + 2 * (k - cells);
      }
    }
    assert genesLoci[..] == head + tail;
  }

  /**
   The shape of the table: its length, the identity on the stem-cell section
   and the stride of two on the global section.
   */
  lemma LociTableShape(stemCellsTypes: nat, fieldsNumber: nat)
    ensures |LociTable(stemCellsTypes, fieldsNumber)| == stemCellsTypes * fieldsNumber * 8 + 7 * fieldsNumber
    ensures forall i :: 0 <= i < stemCellsTypes * fieldsNumber * 8 ==> LociTable(stemCellsTypes, fieldsNumber)[i] == i
    ensures forall i :: 0 <= i < 7 * fieldsNumber ==>
      LociTable(stemCellsTypes, fieldsNumber)[stemCellsTypes * fieldsNumber * 8 + i] == stemCellsTypes * fieldsNumber * 8 + 2 * i
  {
  }

  /** Every offset is strictly below the next one, so the table is a valid set of cut points. */
  lemma LociTableStrictlyIncreasing(stemCellsTypes: nat, fieldsNumber: nat)
    ensures forall i, j :: 0 <= i < j < |LociTable(stemCellsTypes, fieldsNumber)| ==>
      LociTable(stemCellsTypes, fieldsNumber)[i] < LociTable(stemCellsTypes, fieldsNumber)[j]
  {
    var cells := CellLoci(stemCellsTypes, fieldsNumber);
    var t := LociTable(stemCellsTypes, fieldsNumber);
    forall i, j | 0 <= i < j < |t|
      ensures t[i] < t[j]
    {
      if j < cells {
        assert t[i] == i && t[j] == j;
      } else if i < cells {
        assert t[i] == i && t[j] == cells + 2 * (j - cells);
      } else {
        assert t[i] == cells + 2 * (i - cells) && t[j] == cells + 2 * (j - cells);
      }
    }
  }

  /** The largest offset, when the global section is not empty, lies 14F-2 past the stem-cell section. */
  lemma LociTableLast(stemCellsTypes: nat, fieldsNumber: nat)
    requires fieldsNumber > 0
    ensures LociTable(stemCellsTypes, fieldsNumber)[LociCount(stemCellsTypes, fieldsNumber) - 1]
      == CellLoci(stemCellsTypes, fieldsNumber) + 14 * fieldsNumber - 2
  {
    var cells := CellLoci(stemCellsTypes, fieldsNumber);
    var t := LociTable(stemCellsTypes, fieldsNumber);
    assert t[cells + (7 * fieldsNumber - 1)] == cells + 2 * (7 * fieldsNumber - 1);
  }
}
