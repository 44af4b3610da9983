/**
 * A palette entry (`PaletteShape`): it keeps its own copy of the pattern and
 * replaces it with its clockwise rotation whenever the player asks to rotate.
 */
module Palette {
  import opened PatternMath

  class PaletteShape {
    /** The `pattern` state of the palette entry. */
    var pattern: Pattern

    ghost predicate Valid()
      reads this
    {
      WellFormed(pattern)
    }

    /** The state starts as the entry's initial pattern. */
    constructor (initialPattern: Pattern)
      requires WellFormed(initialPattern)
      ensures Valid() && pattern == initialPattern
    {
      pattern := initialPattern;
    }

    /**
     * `handleRotate`: the pattern becomes its clockwise rotation; its set cells
     * are the old ones turned a quarter, so their number is unchanged.
     */
    method HandleRotate()
      requires Valid()
      modifies this
      ensures Valid()
      ensures pattern == Rotated(old(pattern))
      ensures |pattern| == |old(pattern)[0]| && |pattern[0]| == |old(pattern)|
      ensures |Cells(pattern)| == |Cells(old(pattern))|
    {
      RotateKeepsCount(pattern);
      pattern := RotatePattern(pattern);
    }
  }

  /** Four `handleRotate` calls in a row leave the palette entry as it was. */
  method RotateEntryFourTimes(s: PaletteShape)
    requires s.Valid()
    modifies s
    ensures s.Valid() && s.pattern == old(s.pattern)
  {
    ghost var p := s.pattern;
    s.HandleRotate();
    s.HandleRotate();
    s.HandleRotate();
    s.HandleRotate();
    RotateFourTimes(p);
  }
}
