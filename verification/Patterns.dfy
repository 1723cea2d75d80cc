/** Instruction words and the patterns they are compared with. */
module Patterns {
  type Bits = bv64

  /** The word's bits under the mask are the pattern's. */
  predicate Masked(w: Bits, match_: Bits, mask: Bits) { w & mask == match_ }

  /** The two differ nowhere under the mask, and the pattern has no bit outside it. */
  predicate Agrees(w: Bits, match_: Bits, mask: Bits) {
    (w ^ match_) & mask == 0 && match_ & !mask == 0
  }

  lemma MaskedAgrees(w: Bits, match_: Bits, mask: Bits)
    ensures Masked(w, match_, mask) <==> Agrees(w, match_, mask)
  {
    hide Masked, Agrees;
    if Masked(w, match_, mask) {
      Agree(w, match_, mask);
    } else if Agrees(w, match_, mask) {
      Mask(w, match_, mask);
    }
  }

  lemma Agree(w: Bits, match_: Bits, mask: Bits)
    requires Masked(w, match_, mask)
    ensures Agrees(w, match_, mask)
  {
  }

  lemma Mask(w: Bits, match_: Bits, mask: Bits)
    requires Agrees(w, match_, mask)
    ensures Masked(w, match_, mask)
  {
  }
}
