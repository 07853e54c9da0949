/** The kinds of border a jigsaw cell can have, and how a border looks from
    the neighbour's side. Both copies of the generator (the packaged one and
    the older one at the repository root) declare the same enumeration and the
    same `inverse_border_type`; this module is shared by both models. */
module Borders {

  /** INVALID is the "not decided yet" sentinel; FEMININE is cut into the
      piece (a blank); NEUTRAL is a straight border; MASCULINE is cut out of
      the piece into the neighbour (a tab). */
  datatype BorderType = Invalid | Feminine | Neutral | Masculine

  /** A border that interlocks with its neighbour: a tab or a blank. */
  predicate IsCut(b: BorderType) {
    b == Masculine || b == Feminine
  }

  /** The border the neighbour must have across the same edge. */
  function Inverse(b: BorderType): (r: BorderType)
    ensures r == Masculine <==> b == Feminine
    ensures r == Feminine <==> b == Masculine
    ensures !IsCut(b) ==> r == b
    ensures IsCut(r) <==> IsCut(b)
  {
    if b == Feminine then Masculine
    else if b == Masculine then Feminine
    else b
  }

  /** Applying the inverse twice gives back the original border. */
  lemma InverseInvolution(b: BorderType)
    ensures Inverse(Inverse(b)) == b
  {
  }

  /** A cut border is never its own inverse: the two sides of an internal
      edge can never both be tabs or both be blanks. */
  lemma InverseOfCutDiffers(b: BorderType)
    requires IsCut(b)
    ensures Inverse(b) != b
  {
  }

  /** `random.choice([MASCULINE, FEMININE])`, with the random source replaced
      by a coin: `true` picks the first element of the list. */
  function Choose(coin: bool): (r: BorderType)
    ensures IsCut(r)
    ensures coin <==> r == Masculine
  {
    if coin then Masculine else Feminine
  }
}
