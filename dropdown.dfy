/**
 * The home-page dropdowns: a click on a dropdown's label closes every other
 * open dropdown and toggles its own; any other click closes them all.
 */
module HomeDropdown {

  /** At most one dropdown is open. */
  predicate Exclusive(open: seq<bool>) {
    forall i, j :: 0 <= i < |open| && 0 <= j < |open| && open[i] && open[j] ==> i == j
  }

  class Dropdowns {
    const open: array<bool>   // `open[i]`: the i-th `.home-dropdown` has the class `open`

    constructor (open: array<bool>)
      ensures this.open == open
    {
      this.open := open;
    }

    /** A click on the label of dropdown `d` (its propagation stopped). */
    method ClickLabel(d: nat)
      requires d < open.Length
      modifies open
      ensures open[d] == !old(open[d])
      ensures forall j :: 0 <= j < open.Length && j != d ==> !open[j]
      ensures Exclusive(open[..])
    {
      var isOpen := open[d];
      var i := 0;
      while i < open.Length
        invariant 0 <= i <= open.Length
        invariant open[d] == isOpen
        invariant forall j :: 0 <= j < i && j != d ==> !open[j]
      {
        if open[i] && i != d {
          open[i] := false;
        }
        i := i + 1;
      }
      if !isOpen {
        open[d] := true;
      } else {
        open[d] := false;
      }
    }

    /** A click anywhere else on the document. */
    method ClickElsewhere()
      modifies open
      ensures forall j :: 0 <= j < open.Length ==> !open[j]
    {
      var i := 0;
      while i < open.Length
        invariant 0 <= i <= open.Length
        invariant forall j :: 0 <= j < i ==> !open[j]
      {
        if open[i] {
          open[i] := false;
        }
        i := i + 1;
      }
    }
  }
}
