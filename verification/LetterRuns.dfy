/** Alphabets made of runs of consecutive characters. */
module LetterRuns {

  /** `s` counts up from `first`. */
  ghost predicate Run(s: string, first: char)
  {
    forall k :: 0 <= k < |s| ==> s[k] as int == first as int + k
  }
}
