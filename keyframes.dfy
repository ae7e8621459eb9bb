/**
 * The decision rule of `has_expression` (bithou/nodetools.py): a parameter
 * holds an expression when it has exactly one keyframe and that keyframe
 * does not use slopes.  The parameter is given by its list of keyframes.
 */
module Keyframes {
  import opened Wrappers

  /**
   * A keyframe as `has_expression` sees it: what `isSlopeUsed()` answers,
   * or None for a keyframe kind that has no such method.
   */
  datatype Keyframe = Keyframe(slopeUsed: Option<bool>)

  /** `isSlopeUsed()`, where a missing method (AttributeError) counts as False. */
  predicate UsesSlope(k: Keyframe)
    ensures UsesSlope(k) <==> k.slopeUsed == Some(true)
  {
    match k.slopeUsed
    case Some(b) => b
    case None => false
  }

  /** The loop of `has_expression`, with its early returns. */
  method HasExpression(keyframes: seq<Keyframe>) returns (r: bool)
    ensures r <==> |keyframes| == 1 && !UsesSlope(keyframes[0])
  {
    if |keyframes| != 1 {
      return false;
    }
    var i := 0;
    while i < |keyframes|
      invariant 0 <= i <= |keyframes|
      invariant forall j :: 0 <= j < i ==> UsesSlope(keyframes[j])
    {
      if !UsesSlope(keyframes[i]) {
        return true;
      }
      i := i + 1;
    }
    return false;
  }
}
