/** Selections of indices along the dimensions of a column (selection.h). */
module Selections {
  import opened Wrappers
  import opened Sequences

  /**
   A FORTRAN-ordered selection: the last span selects rows. An empty span selects
   the whole dimension. The storage behind the spans is not modelled.
   */
  datatype Selection = Selection(spans: seq<seq<int>>) {

    function Size(): nat {
      |spans|
    }

    // The span of dimension fdim out of ndim, aligned at the row dimension.
    function MaybeFSpan(fdim: nat, ndim: nat): Option<seq<int>> {
      var sdim := fdim - ndim + |spans|;
      if 0 <= sdim < |spans| && spans[sdim] != [] then Some(spans[sdim]) else None
    }

    predicate HasRowSpan() {
      spans != [] && spans[|spans| - 1] != []
    }

    function GetRowSpan(): seq<int>
      requires spans != []
    {
      spans[|spans| - 1]
    }
  }

  /** The row span is the F-ordered span of the last dimension, whatever the rank. */
  lemma RowSpanIsLast(selection: Selection, ndim: nat)
    requires ndim > 0
    ensures selection.HasRowSpan() == selection.MaybeFSpan(ndim - 1, ndim).Some?
    ensures selection.HasRowSpan() ==> selection.MaybeFSpan(ndim - 1, ndim) == Some(selection.GetRowSpan())
  {
  }

  datatype SelectionOrder = COrder | FOrder

  /** Collects spans, then builds a selection from them. */
  class SelectionBuilder {
    var spans: seq<seq<int>>
    var order: SelectionOrder

    constructor ()
      ensures spans == [] && order == COrder
    {
      spans := [];
      order := COrder;
    }

    method SetOrder(c: char)
      modifies this`order
      ensures order == if c == 'F' then FOrder else COrder
    {
      order := if c == 'F' then FOrder else COrder;
    }

    method Add(ids: seq<int>)
      modifies this`spans
      ensures spans == old(spans) + [ids]
    {
      spans := spans + [ids];
    }

    method AddEmpty()
      modifies this`spans
      ensures spans == old(spans) + [[]]
    {
      spans := spans + [[]];
    }

    // Moves the spans into the selection; a C-ordered builder reverses them first.
    method Build() returns (selection: Selection)
      modifies this`spans
      ensures selection.spans == if order == COrder then Reversed(old(spans)) else old(spans)
      ensures spans == []
    {
      if order == COrder {
        spans := Reversed(spans);
      }
      selection := Selection(spans);
      spans := [];
    }
  }

  /**
   Spans added rows first in C order are found at the mirrored dimension: the span of
   C dimension c is the F-ordered span ndim - 1 - c of every rank above c. Dimensions for
   which none was added, or an empty one, are not selected.
   */
  lemma COrderIsMirrored(added: seq<seq<int>>, c: nat, ndim: nat)
    requires c < ndim
    ensures Selection(Reversed(added)).MaybeFSpan(ndim - 1 - c, ndim)
         == if c < |added| && added[c] != [] then Some(added[c]) else None
  {
    assert c < |added| ==> Reversed(added)[|added| - 1 - c] == added[c];
  }
}
