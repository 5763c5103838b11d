/**
 * The two highlight-colour mappings of the exporter: the CSS class used in the
 * HTML report for an annotation style code, and the folding of style codes
 * above 7 cyclically onto the slots 2..7 of a mind-map palette (a helper the
 * script defines but does not call).
 */
module Colors {

  /** CSS classes of the HTML palette, indexed by style code 0..5. */
  const Palette: seq<string> := ["b_gray", "b_green", "b_blue", "b_yellow", "b_pink", "b_violet"]

  /** The class used for every style code outside the palette. */
  const Fallback: string := "b_gray"

  /** Smallest and largest colour slot of the mind-map palette once folded. */
  const MindMapLow: int := 2
  const MindMapHigh: int := 7

  /** CSS class of a style code: the palette entry for 0..5, gray for any other integer. */
  function GetColor(num: int): (r: string)
    ensures 0 <= num < |Palette| ==> r == Palette[num]
    ensures num < 0 || |Palette| <= num ==> r == Fallback
  {
    if num == 0 then "b_gray"
    else if num == 1 then "b_green"
    else if num == 2 then "b_blue"
    else if num == 3 then "b_yellow"
    else if num == 4 then "b_pink"
    else if num == 5 then "b_violet"
    else "b_gray"
  }

  /** Every style code, known or not, is rendered with a class of the palette. */
  lemma GetColorInPalette(num: int)
    ensures GetColor(num) in Palette
  {
    assert Palette[0] == Fallback;
  }

  /**
   * Mind-map colour of a style code: codes up to 7 are kept, larger ones are
   * folded cyclically onto 2..7 (Python's % with divisor 6 is Euclidean here).
   */
  function GetMmColor(num: int): (r: int)
    ensures num <= MindMapHigh ==> r == num
    ensures num > MindMapHigh ==> MindMapLow <= r <= MindMapHigh && (r - num) % 6 == 0
  {
    if num > 7 then ((num - 2) % 6) + 2 else num
  }

  /** For a code above 7 the folded colour is the only slot of 2..7 congruent to it modulo 6. */
  lemma GetMmColorUnique(num: int, c: int)
    requires num > MindMapHigh
    requires MindMapLow <= c <= MindMapHigh && (c - num) % 6 == 0
    ensures GetMmColor(num) == c
  {
    var r := GetMmColor(num);
    assert (c - r) % 6 == 0 by {
      assert c - r == (c - num) - (r - num);
    }
  }

  /** Folding a colour that has already been folded changes nothing. */
  lemma GetMmColorIdempotent(num: int)
    ensures GetMmColor(GetMmColor(num)) == GetMmColor(num)
  {
  }
}
