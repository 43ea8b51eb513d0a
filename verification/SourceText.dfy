/** Normalised source text whose characters keep the source range they stand for
    (app/services/documents/chunking/normalization.py). */
module SourceText {

  /** One normalised character and its half-open source range. */
  datatype SourceCharacter = SourceCharacter(text: char, start: nat, end: nat)

  function Text(characters: seq<SourceCharacter>): string {
    seq(|characters|, i requires 0 <= i < |characters| => characters[i].text)
  }

  /** Source ranges never go backwards. */
  ghost predicate InSourceOrder(characters: seq<SourceCharacter>) {
    forall i, j :: 0 <= i < j < |characters| ==>
      characters[i].start <= characters[j].start && characters[i].end <= characters[j].end
  }

  /** Every character stands for a non-empty range of the source. */
  ghost predicate InSource(characters: seq<SourceCharacter>, length: nat) {
    forall i :: 0 <= i < |characters| ==> characters[i].start < characters[i].end <= length
  }
}
