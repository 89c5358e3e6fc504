/** Taxonomy terms, as far as the forum access code refers to them. */
module Taxonomy {

  /** The id of a taxonomy term; forums are terms of the forum vocabulary. */
  type TermId = nat
}
