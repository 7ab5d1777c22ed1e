/**
 * The copy of `find_infix_windows` in `src/lib.rs`, written as the loops the
 * iterator chain runs: `windows(n).position(..)` visits the window starts in
 * order and `zip(..).all(..)` compares one window position by position. The
 * scan is proved to agree with the specification-level `Bytes.FindInfixWindows`.
 */
module Lib {
  import opened Wrappers
  import opened LittleEndian
  import Bytes

  /** `window.iter().zip(&pattern).all(..)`: every unmasked position agrees. */
  method WindowMatches(haystack: seq<byte>, pattern: Bytes.Pattern, at: nat) returns (all: bool)
    requires at + |pattern| <= |haystack|
    ensures all <==> Bytes.MatchesAt(haystack, pattern, at)
  {
    var j := 0;
    while j < |pattern|
      invariant j <= |pattern|
      invariant forall k :: 0 <= k < j ==> pattern[k].Any? || pattern[k].b == haystack[at + k]
    {
      if pattern[j].Exact? && pattern[j].b != haystack[at + j] {
        return false;
      }
      j := j + 1;
    }
    return true;
  }

  /**
   * `find_infix_windows` of `src/lib.rs`: `Some(0)` for an empty or blank
   * needle, otherwise the first window start at which the pattern matches.
   */
  method FindInfixWindows(haystack: seq<byte>, needle: string) returns (r: Option<nat>)
    requires Bytes.WellFormedNeedle(needle)
    ensures r == Bytes.FindInfixWindows(haystack, needle)
  {
    if |needle| == 0 {
      return Some(0);
    }
    var pattern := Bytes.ParsePattern(needle).value;
    if |pattern| == 0 {
      return Some(0);
    }
    var i := 0;
    while i + |pattern| <= |haystack|
      invariant forall k :: 0 <= k < i ==> !Bytes.MatchesAt(haystack, pattern, k)
      decreases |haystack| - i
    {
      var all := WindowMatches(haystack, pattern, i);
      if all {
        Unique(haystack, needle, Some(i));
        return Some(i);
      }
      i := i + 1;
    }
    assert forall k :: !Bytes.MatchesAt(haystack, pattern, k) by {
      forall k | i <= k
        ensures !Bytes.MatchesAt(haystack, pattern, k)
      {
      }
    }
    Unique(haystack, needle, None);
    return None;
  }

  /** The specification of `Bytes.FindInfixWindows` has one solution. */
  lemma {:induction false} Unique(haystack: seq<byte>, needle: string, r: Option<nat>)
    requires Bytes.WellFormedNeedle(needle)
    requires var p := Bytes.ParsePattern(needle).value;
      && (r.Some? ==> Bytes.MatchesAt(haystack, p, r.value))
      && (r.Some? ==> forall i :: 0 <= i < r.value ==> !Bytes.MatchesAt(haystack, p, i))
      && (r.None? <==> forall i :: !Bytes.MatchesAt(haystack, p, i))
    ensures r == Bytes.FindInfixWindows(haystack, needle)
  {
    var p := Bytes.ParsePattern(needle).value;
    var s := Bytes.FindInfixWindows(haystack, needle);
    if r.Some? && s.Some? {
      assert Bytes.MatchesAt(haystack, p, r.value) && Bytes.MatchesAt(haystack, p, s.value);
    }
  }
}
