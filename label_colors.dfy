/** LabelColors.cs: the fixed palette a label colour must come from. */
module LabelColors {

  const Red: string := "red"
  const Orange: string := "orange"
  const Yellow: string := "yellow"
  const Lime: string := "lime"
  const Cyan: string := "cyan"
  const Blue: string := "blue"
  const Purple: string := "purple"
  const Violet: string := "violet"
  const Magenta: string := "magenta"
  const Pink: string := "pink"

  /** `LabelColors.All`, in declaration order. */
  const All: seq<string> := [Red, Orange, Yellow, Lime, Cyan, Blue, Purple, Violet, Magenta, Pink]

  /** `IsValid`: exact (ordinal, case-sensitive) membership in `All`. */
  predicate IsValid(color: string)
  {
    color in All
  }

  /** The palette has ten pairwise-distinct entries. */
  lemma PaletteIsTenDistinct()
    ensures |All| == 10
    ensures forall a, b | 0 <= a < b < |All| :: All[a] != All[b]
  {
  }

  /** Exactly the ten lower-case names are valid. */
  lemma IsValidExactlyTheTen(color: string)
    ensures IsValid(color) <==>
              color == "red" || color == "orange" || color == "yellow" || color == "lime"
              || color == "cyan" || color == "blue" || color == "purple" || color == "violet"
              || color == "magenta" || color == "pink"
  {
  }

  /** The comparison is exact: a capitalised or blank name is not in the palette. */
  lemma IsValidIsCaseSensitive()
    ensures !IsValid("Red") && !IsValid("RED") && !IsValid("") && !IsValid(" red")
  {
    assert "Red"[0] != "red"[0];
    assert forall c | c in All :: |c| > 0 && c[0] != 'R' && c[0] != ' ';
  }
}
