/** The fixed configuration of the game: the eight-colour palette, the number
    of attempts a player gets and the length of a code. */
module Colors {

  /** A colour is identified by its name, as the board passes it around. */
  type Color = string

  /** One palette entry: the colour's name and the two style classes used to paint it. */
  datatype ColorEntry = ColorEntry(name: Color, bg: string, hover: string)

  const COLORS: seq<ColorEntry> := [
    ColorEntry("red", "bg-red-500", "hover:bg-red-600"),
    ColorEntry("green", "bg-green-500", "hover:bg-green-600"),
    ColorEntry("blue", "bg-blue-500", "hover:bg-blue-600"),
    ColorEntry("yellow", "bg-yellow-500", "hover:bg-yellow-600"),
    ColorEntry("purple", "bg-purple-500", "hover:bg-purple-600"),
    ColorEntry("cyan", "bg-cyan-500", "hover:bg-cyan-600"),
    ColorEntry("white", "bg-white border-2 border-gray-400", "hover:bg-gray-100"),
    ColorEntry("pink", "bg-pink-500", "hover:bg-pink-600")
  ]

  const MAX_ATTEMPTS: nat := 10
  const CODE_LENGTH: nat := 4

  /** No colour occurs twice in `s`. */
  predicate Distinct(s: seq<Color>) {
    forall i, j :: 0 <= i < j < |s| ==> s[i] != s[j]
  }

  /** No two entries of `pool` share a name. */
  predicate DistinctNames(pool: seq<ColorEntry>) {
    forall i, j :: 0 <= i < j < |pool| ==> pool[i].name != pool[j].name
  }

  /** `c` is the name of some entry of `pool`. */
  predicate HasName(pool: seq<ColorEntry>, c: Color) {
    exists k :: 0 <= k < |pool| && pool[k].name == c
  }

  /** `c` is the name of one of the eight palette colours. */
  predicate IsPaletteColor(c: Color) {
    HasName(COLORS, c)
  }

  /** The palette has eight entries, enough for a code, and their names are pairwise different. */
  lemma PaletteNamesDistinct()
    ensures |COLORS| == 8 && CODE_LENGTH <= |COLORS|
    ensures DistinctNames(COLORS)
  {
  }
}
