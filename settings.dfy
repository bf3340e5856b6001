/**
 * The mode enumerations that steer the syllable builder.
 * Each is a plain value type compared by equality, nothing more.
 */
module Settings {

  /** Which syllable shapes should be generated (C: consonant or cluster,
      V: vowel, diphthong or glide); All means CV, VC and CVC.
      The builder stores this setting but never consults it. */
  datatype SyllableStructure = All | CV | VC | CVC

  /** Which diphthongs are generated from the vowels:
      All: every ordered vowel pair; NoLong: All without the long vowels
      (a vowel paired with itself); OnlyGiven: only the supplied list;
      DisableGiven: All without the supplied strings. */
  datatype Diphthongs = All | NoLong | OnlyGiven | DisableGiven

  /** Which glides are generated: All: the "y" and the "w" glide of every
      vowel and diphthong; AllOnlyU: the "w" glides only; AllOnlyY: the "y"
      glides only. */
  datatype Glides = All | AllOnlyU | AllOnlyY

  /** The maximal number of consonants in a generated cluster. */
  datatype ConsonantClusterLength = C | CC | CCC | CCCC | None

  /** How consonant clusters are obtained: All, NoDouble, OnlyGiven (the
      supplied clusters only) or DisableGiven. Single consonants are always
      part of the cluster pool and should not be supplied as clusters. */
  datatype ConsonantCluster = All | NoDouble | OnlyGiven | DisableGiven

  /** The number of consonants a length setting allows at most; None has no
      such number. */
  function MaxClusterLength(length: ConsonantClusterLength): nat
    requires length != ConsonantClusterLength.None
  {
    if length == C then 1
    else if length == CC then 2
    else if length == CCC then 3
    else 4
  }
}
