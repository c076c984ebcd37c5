/** The project grid: every card carries an `expanded` flag; a click on a card
    collapses every other card and toggles the clicked one (an accordion). */
module ProjectCards {
  import opened Wrappers
  import opened Flags

  /** The flags after a click on card `c`, given the flags before it. */
  function AfterClick(flags: seq<bool>, c: nat): (r: seq<bool>)
    requires c < |flags|
    ensures |r| == |flags|
    ensures CountTrue(r) <= 1
    ensures flags[c] ==> forall j :: 0 <= j < |r| ==> !r[j]
    ensures !flags[c] ==> r == Exclusive(|flags|, c)
  {
    if flags[c] then seq(|flags|, j => false) else Exclusive(|flags|, c)
  }

  /** Clicking the same card twice: from a collapsed card every card ends up
      collapsed; from an expanded card only that card ends up expanded. */
  lemma ClickTwice(flags: seq<bool>, c: nat)
    requires c < |flags|
    ensures !flags[c] ==> CountTrue(AfterClick(AfterClick(flags, c), c)) == 0
    ensures flags[c] ==> AfterClick(AfterClick(flags, c), c) == Exclusive(|flags|, c)
  {
  }

  /** Every card on the page with its `expanded` flag; `listening` is whether
      the page has a project grid to attach the click handler to. */
  class Grid {
    const expanded: array<bool>
    const listening: bool

    /** The accordion invariant: at most one card is expanded. */
    ghost predicate AtMostOneExpanded()
      reads this, expanded
    {
      CountTrue(expanded[..]) <= 1
    }

    constructor (flags: seq<bool>, hasGrid: bool)
      ensures fresh(expanded) && expanded[..] == flags && listening == hasGrid
    {
      listening := hasGrid;
      expanded := new bool[|flags|](j => 0 <= j < |flags| && flags[j]);
    }

    /** A click inside the grid; `target` is the card the click landed in,
        or None when it landed on no card. */
    method Click(target: Option<nat>)
      requires target.Some? ==> target.value < expanded.Length
      modifies expanded
      ensures !listening || target.None? ==> expanded[..] == old(expanded[..])
      ensures listening && target.Some? ==>
        expanded[..] == AfterClick(old(expanded[..]), target.value) && AtMostOneExpanded()
    {
      if !listening || target.None? {
        return;
      }
      var c := target.value;
      var wasExpanded := expanded[c];
      var j := 0;
      while j < expanded.Length
        invariant 0 <= j <= expanded.Length
        invariant forall k :: 0 <= k < j && k != c ==> !expanded[k]
        invariant forall k :: j <= k < expanded.Length ==> expanded[k] == old(expanded[k])
        invariant expanded[c] == old(expanded[c])
      {
        if j != c && expanded[j] {
          expanded[j] := false;
        }
        j := j + 1;
      }
      expanded[c] := !wasExpanded;
      assert expanded[..] == AfterClick(old(expanded[..]), c);
    }
  }
}
