/**
 * The time-of-day canonicaliser shared by the home page, the attendance
 * modal and the schedule action: a five-character `HH:MM` gains `:00`,
 * anything else is left alone.
 */
module TimeFormat {

  function NormalizeTime(t: string): (r: string)
    ensures |t| == 5 ==> |r| == 8 && r[..5] == t && r[5..] == ":00"
    ensures |t| != 5 ==> r == t
  {
    if |t| == 5 then t + ":00" else t
  }

  /** A time already in the form `NormalizeTime` produces. */
  predicate IsNormalized(t: string) {
    |t| != 5
  }

  lemma NormalizeTimeNormalizes(t: string)
    ensures IsNormalized(NormalizeTime(t))
    ensures IsNormalized(t) <==> NormalizeTime(t) == t
  {
  }

  /** Applying the normaliser twice is applying it once. */
  lemma NormalizeTimeIdempotent(t: string)
    ensures NormalizeTime(NormalizeTime(t)) == NormalizeTime(t)
  {
  }

  /**
   * Two times compare equal after normalising exactly when they are the
   * same text, or one is the short form of the other.
   */
  lemma NormalizedEqual(a: string, b: string)
    ensures NormalizeTime(a) == NormalizeTime(b) <==>
      a == b || (|a| == 5 && b == a + ":00") || (|b| == 5 && a == b + ":00")
  {
  }
}
