/** The label codes the mask logic works with: the LIP human-parsing taxonomy
    and the DensePose coarse body-part codes. */
module Lip {

  /** Background. */
  const BACKGROUND: int := 0

  /** Upper-clothes, the code the guidance map assigns to its target region. */
  const UPPER_CLOTHES: int := 5

  /** Upper-clothes, dress, coat, left arm, right arm: erased in the agnostic
      person. */
  const AGNOSTIC_LABELS: seq<int> := [5, 6, 7, 14, 15]

  /** Hat, hair, glove, sunglasses, neck, face: never painted over. */
  const PRESERVE_LABELS: seq<int> := [1, 2, 3, 4, 10, 13]

  /** Upper-clothes, dress, coat: cleared from the guidance map. */
  const GARMENT_LABELS: seq<int> := [5, 6, 7]

  /** DensePose torso (1, 2) and arm (11 to 14) codes: the guidance target. */
  const SURFACE_CODES: seq<int> := [1, 2, 11, 12, 13, 14]

  /** No label is both erased and preserved. */
  lemma AgnosticPreserveDisjoint(l: int)
    ensures !(l in AGNOSTIC_LABELS && l in PRESERVE_LABELS)
  {
  }
}
