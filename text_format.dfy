/**
 * The text helpers of the exporter: Python's substring search and slicing as
 * the script relies on them, the emphasis of a highlight's selected text inside
 * its representative passage, and the fixed-width wrapping of long text.
 */
module TextFormat {

  // ---------------------------------------------------------------------------
  // Python string primitives
  // ---------------------------------------------------------------------------

  /**
   * Python's normalisation of one slice bound for a sequence of length n:
   * a negative bound counts from the end, then the bound is clamped to 0..n.
   */
  function SliceBound(i: int, n: nat): (j: nat)
    ensures j <= n
    ensures 0 <= i <= n ==> j == i
  {
    if i < 0 then (if i + n < 0 then 0 else i + n)
    else if i > n then n
    else i
  }

  /** Python's s[lo:hi] with step 1, negative and out-of-range bounds included. */
  function PySlice<T>(s: seq<T>, lo: int, hi: int): (r: seq<T>)
    ensures |r| <= |s|
    ensures 0 <= lo <= hi <= |s| ==> r == s[lo..hi]
  {
    var a, b := SliceBound(lo, |s|), SliceBound(hi, |s|);
    if a < b then s[a..b] else []
  }

  /** sub occurs in s starting at index k. */
  predicate OccursAt(sub: string, s: string, k: int)
  {
    0 <= k && k + |sub| <= |s| && s[k..k + |sub|] == sub
  }

  /** k is the lowest index at which sub occurs in s. */
  predicate IsFirstOccurrence(sub: string, s: string, k: int)
  {
    OccursAt(sub, s, k) && forall j :: 0 <= j < k ==> !OccursAt(sub, s, j)
  }

  /** Python's s.find(sub): the lowest index at which sub occurs in s, or -1. */
  function Find(sub: string, s: string): (k: int)
    ensures k == -1 || IsFirstOccurrence(sub, s, k)
    ensures k == -1 <==> forall j :: !OccursAt(sub, s, j)
  {
    FindFrom(sub, s, 0)
  }

  /** The search of Find, resumed at index i once no earlier index matched. */
  function FindFrom(sub: string, s: string, i: nat): (k: int)
    requires forall j :: 0 <= j < i ==> !OccursAt(sub, s, j)
    ensures k == -1 || IsFirstOccurrence(sub, s, k)
    ensures k == -1 <==> forall j :: !OccursAt(sub, s, j)
    decreases |s| + 1 - i
  {
    if i + |sub| > |s| then -1
    else if s[i..i + |sub|] == sub then i
    else FindFrom(sub, s, i + 1)
  }

  /** The first occurrence is unique, so it is what Find returns. */
  lemma FindFirstOccurrence(sub: string, s: string, k: int)
    requires IsFirstOccurrence(sub, s, k)
    ensures Find(sub, s) == k
  {
    var f := Find(sub, s);
    assert f != -1 by {
      assert OccursAt(sub, s, k);
    }
    assert !(f < k) && !(k < f);
  }

  /** Every first occurrence is the one Find returns. */
  lemma FirstOccurrencesAreFind(sub: string, s: string)
    ensures forall k :: IsFirstOccurrence(sub, s, k) ==> k == Find(sub, s)
  {
    forall k | IsFirstOccurrence(sub, s, k)
      ensures k == Find(sub, s)
    {
      FindFirstOccurrence(sub, s, k);
    }
  }

  /** An empty selection is found at the very start, as Python's "".find("") and s.find("") are 0. */
  lemma FindEmpty(s: string)
    ensures Find("", s) == 0
  {
    assert OccursAt("", s, 0);
  }

  // ---------------------------------------------------------------------------
  // bold_text
  // ---------------------------------------------------------------------------

  /**
   * bold_text exactly as the script computes it: left is the result of find,
   * right = left + len(selected), and the three pieces are Python slices.
   * When the selection is missing, left is -1 and the slices wrap around.
   */
  function BoldTextAsWritten(selected: string, representative: string): (r: string)
    ensures Find(selected, representative) >= 0 ==> r == BoldText(selected, representative)
  {
    var left := Find(selected, representative);
    var right := left + |selected|;
    PySlice(representative, 0, left) + "<b>" + PySlice(representative, left, right) + "</b>"
      + PySlice(representative, right, |representative|)
  }

  /** "x" occurs nowhere in "abc". */
  lemma NoXInAbc()
    ensures forall j :: !OccursAt("x", "abc", j)
  {
    var s := "abc";
    assert s[0..1] == "a" && s[1..2] == "b" && s[2..3] == "c";
  }

  /**
   * The selected text missing from a three-letter passage: the script drops
   * the passage's last letter, emphasises nothing, and repeats the passage.
   */
  lemma AsWrittenGarblesMissingSelection()
    ensures Find("x", "abc") == -1
    ensures BoldTextAsWritten("x", "abc") == "ab<b></b>abc"
    ensures BoldTextAsWritten("x", "abc") != BoldText("x", "abc")
  {
    var s := "abc";
    NoXInAbc();
    assert BoldText("x", s) == s;
    assert PySlice(s, 0, -1) == "ab";
    assert PySlice(s, -1, 0) == "";
    assert PySlice(s, 0, 3) == "abc";
  }

  /**
   * In general, a selection of length 1..len(passage) that the passage does
   * not contain makes the script keep all of the passage but its last
   * character, emphasise nothing, and repeat the passage from index
   * len(selected) - 1 on.
   */
  lemma BoldTextAsWrittenMissing(selected: string, representative: string)
    requires 1 <= |selected| <= |representative|
    requires forall j :: !OccursAt(selected, representative, j)
    ensures BoldTextAsWritten(selected, representative)
         == representative[..|representative| - 1] + "<b></b>" + representative[|selected| - 1..]
  {
    var n := |representative|;
    assert Find(selected, representative) == -1;
    assert PySlice(representative, 0, -1) == representative[..n - 1];
    assert PySlice(representative, -1, |selected| - 1) == [];
    assert PySlice(representative, |selected| - 1, n) == representative[|selected| - 1..];
  }

  /**
   * A selection longer than a non-empty passage is missing from it too, and
   * then the script emphasises the passage's last character.
   */
  lemma BoldTextAsWrittenLongSelection(selected: string, representative: string)
    requires |selected| > |representative| >= 1
    ensures BoldTextAsWritten(selected, representative)
         == representative[..|representative| - 1] + "<b>" + representative[|representative| - 1..] + "</b>"
  {
    assert forall j :: !OccursAt(selected, representative, j);
  }

  /** A non-empty selection is missing from the empty passage, and the script yields the bare markers. */
  lemma BoldTextAsWrittenEmptyPassage(selected: string)
    requires |selected| >= 1
    ensures BoldTextAsWritten(selected, "") == "<b></b>"
  {
    assert forall j :: !OccursAt(selected, "", j);
  }

  /**
   * bold_text with the missing-selection case made explicit: the first
   * occurrence of the selection is wrapped in <b>..</b>, and a passage that
   * does not contain the selection is returned unchanged.
   */
  function BoldText(selected: string, representative: string): (r: string)
    ensures (forall j :: !OccursAt(selected, representative, j)) ==> r == representative
    ensures forall k :: IsFirstOccurrence(selected, representative, k) ==>
      r == representative[..k] + "<b>" + selected + "</b>" + representative[k + |selected|..]
  {
    FirstOccurrencesAreFind(selected, representative);
    var left := Find(selected, representative);
    if left < 0 then representative
    else
      representative[..left] + "<b>" + representative[left..left + |selected|] + "</b>"
        + representative[left + |selected|..]
  }

  /** Where the two markers sit in r = pre + "<b>" + sel + "</b>" + post, and what is left without them. */
  lemma MarkersAround(r: string, whole: string, pre: string, sel: string, post: string)
    requires whole == pre + sel + post
    requires r == pre + "<b>" + sel + "</b>" + post
    ensures var k := |pre|;
      && |r| == |whole| + 7
      && r[k..k + 3] == "<b>"
      && r[k + 3..k + 3 + |sel|] == sel
      && r[k + 3 + |sel|..k + 7 + |sel|] == "</b>"
      && r[..k] + r[k + 3..k + 3 + |sel|] + r[k + 7 + |sel|..] == whole
  {
    var k := |pre|;
    assert r[..k] == pre;
    assert r[k + 7 + |sel|..] == post;
  }

  /**
   * The emphasised text is seven characters longer than the passage, carries
   * the two markers around the selection, and deleting them gives the passage back.
   */
  lemma BoldTextRemovesToPassage(selected: string, representative: string, k: int)
    requires IsFirstOccurrence(selected, representative, k)
    ensures var r := BoldText(selected, representative);
      && |r| == |representative| + 7
      && r[k..k + 3] == "<b>"
      && r[k + 3..k + 3 + |selected|] == selected
      && r[k + 3 + |selected|..k + 7 + |selected|] == "</b>"
      && r[..k] + r[k + 3..k + 3 + |selected|] + r[k + 7 + |selected|..] == representative
  {
    var pre, post := representative[..k], representative[k + |selected|..];
    assert representative == pre + selected + post by {
      assert representative[k..k + |selected|] == selected;
    }
    var r := BoldText(selected, representative);
    assert r == pre + "<b>" + selected + "</b>" + post;
    MarkersAround(r, representative, pre, selected, post);
  }

  /** An empty selection is found at index 0, so an empty emphasis opens the passage. */
  lemma BoldTextEmptySelection(representative: string)
    ensures BoldText("", representative) == "<b></b>" + representative
    ensures BoldTextAsWritten("", representative) == "<b></b>" + representative
  {
    FindEmpty(representative);
  }

  // ---------------------------------------------------------------------------
  // make_text_readable
  // ---------------------------------------------------------------------------

  /** Width used by make_text_readable when no width is given. */
  const DefaultWidth: nat := 80

  /**
   * make_text_readable(text) with its default width: a text of at most 80
   * characters comes back unchanged.
   */
  function MakeTextReadableDefault(text: string): (r: string)
    ensures |text| <= DefaultWidth ==> r == text
  {
    MakeTextReadable(text, DefaultWidth)
  }

  function Min(a: int, b: int): int
  {
    if a <= b then a else b
  }

  /** The concatenation of a sequence of strings. */
  function Concat(parts: seq<string>): string
  {
    if parts == [] then "" else parts[0] + Concat(parts[1..])
  }

  /** m * width, written as repeated addition so that proofs about lengths and offsets stay linear. */
  function Times(m: nat, width: nat): nat
  {
    if m == 0 then 0 else Times(m - 1, width) + width
  }

  lemma {:induction false} TimesIsProduct(m: nat, width: nat)
    ensures Times(m, width) == m * width
  {
    if m > 0 {
      TimesIsProduct(m - 1, width);
      assert (m - 1) * width + width == m * width;
    }
  }

  /** The sum of the lengths of the parts. */
  function TotalLength(parts: seq<string>): nat
  {
    if parts == [] then 0 else |parts[0]| + TotalLength(parts[1..])
  }

  lemma {:induction false} ConcatLength(parts: seq<string>)
    ensures |Concat(parts)| == TotalLength(parts)
  {
    if parts != [] {
      ConcatLength(parts[1..]);
    }
  }

  /** Python's sep.join(parts). */
  function Join(sep: string, parts: seq<string>): (r: string)
    ensures parts == [] ==> r == ""
    ensures parts != [] ==> |r| == TotalLength(parts) + Times(|parts| - 1, |sep|)
  {
    if parts == [] then ""
    else if |parts| == 1 then parts[0]
    else parts[0] + sep + Join(sep, parts[1..])
  }

  lemma SliceAfterPrefix(x: string, y: string, a: nat, b: nat)
    requires a <= b <= |y|
    ensures (x + y)[|x| + a..|x| + b] == y[a..b]
  {
  }

  /** Part m of a join whose earlier parts are all w long starts at m * (w + |sep|). */
  lemma {:induction false} JoinPartAt(sep: string, parts: seq<string>, w: nat, m: nat)
    requires forall k :: 0 <= k < |parts| - 1 ==> |parts[k]| == w
    requires m < |parts|
    ensures var r, o := Join(sep, parts), Times(m, w + |sep|);
      o + |parts[m]| <= |r| && r[o..o + |parts[m]|] == parts[m]
    decreases m
  {
    if m == 0 {
      if |parts| > 1 {
        assert Join(sep, parts) == parts[0] + (sep + Join(sep, parts[1..]));
      }
    } else {
      var rest := Join(sep, parts[1..]);
      JoinPartAt(sep, parts[1..], w, m - 1);
      assert parts[1..][m - 1] == parts[m];
      var o := Times(m - 1, w + |sep|);
      assert Join(sep, parts) == (parts[0] + sep) + rest;
      SliceAfterPrefix(parts[0] + sep, rest, o, o + |parts[m]|);
    }
  }

  /** The separator follows every part but the last. */
  lemma {:induction false} JoinSeparatorAt(sep: string, parts: seq<string>, w: nat, m: nat)
    requires forall k :: 0 <= k < |parts| - 1 ==> |parts[k]| == w
    requires m < |parts| - 1
    ensures var r, o := Join(sep, parts), Times(m, w + |sep|) + w;
      o + |sep| <= |r| && r[o..o + |sep|] == sep
    decreases m
  {
    var rest := Join(sep, parts[1..]);
    assert Join(sep, parts) == (parts[0] + sep) + rest;
    if m == 0 {
      SliceAfterPrefix(parts[0], sep + rest, 0, |sep|);
    } else {
      JoinSeparatorAt(sep, parts[1..], w, m - 1);
      var o := Times(m - 1, w + |sep|) + w;
      SliceAfterPrefix(parts[0] + sep, rest, o, o + |sep|);
    }
  }

  /**
   * The pieces text[i:i+every] for i in range(0, len(text), every): every
   * piece but the last is `every` long, the last holds the 1..every
   * characters that remain, and there are ceil(len(text) / every) of them,
   * the count c with (c-1)*every < len <= c*every.
   */
  function Chunks(text: string, every: nat): (cs: seq<string>)
    requires every >= 1
    ensures text == "" <==> cs == []
    ensures text != "" ==> Times(|cs| - 1, every) < |text| <= Times(|cs|, every)
    ensures forall m :: 0 <= m < |cs| ==> 1 <= |cs[m]| <= every
    ensures forall m :: 0 <= m < |cs| - 1 ==> |cs[m]| == every
    decreases |text|
  {
    if |text| == 0 then []
    else if |text| <= every then [text]
    else [text[..every]] + Chunks(text[every..], every)
  }

  lemma SliceOfSuffix(s: string, k: nat, a: nat, b: nat)
    requires a <= b && k + b <= |s|
    ensures s[k..][a..b] == s[k + a..k + b]
  {
  }

  /** The m-th piece is Python's text[i:i+every] for i = m*every, clamped to the end of the text. */
  lemma {:induction false} ChunkAt(text: string, every: nat, m: nat)
    requires every >= 1 && m < |Chunks(text, every)|
    ensures var i := Times(m, every);
      i < |text| && Chunks(text, every)[m] == text[i..Min(i + every, |text|)]
    decreases m
  {
    if m > 0 {
      var rest := text[every..];
      ChunksStep(text, every);
      ChunkAt(rest, every, m - 1);
      var a := Times(m - 1, every);
      SliceOfSuffix(text, every, a, Min(a + every, |rest|));
    }
  }

  /** After the first piece, the pieces of a text are those of its remainder. */
  lemma ChunksStep(text: string, every: nat)
    requires every >= 1 && |text| > every
    ensures Chunks(text, every) == [text[..every]] + Chunks(text[every..], every)
  {
  }

  /** The pieces, put back together, are the text: no character is lost, added or moved. */
  lemma {:induction false} ChunksConcat(text: string, every: nat)
    requires every >= 1
    ensures Concat(Chunks(text, every)) == text
    decreases |text|
  {
    if |text| > every {
      ChunksConcat(text[every..], every);
      assert text == text[..every] + text[every..];
    }
  }

  lemma MulAtLeastOnce(k: int, e: int)
    requires k >= 1 && e >= 1
    ensures k * e >= e
  {
  }

  /** The only count c with (c-1)*e < n <= c*e is ceil(n / e), written (n + e - 1) / e. */
  lemma CeilingUnique(n: nat, e: nat, c: nat)
    requires e >= 1 && c >= 1
    requires (c - 1) * e < n <= c * e
    ensures c == (n + e - 1) / e
  {
    var x := n + e - 1;
    var q := x / e;
    if q > c {
      MulAtLeastOnce(q - c, e);
    } else if q < c {
      MulAtLeastOnce(c - q, e);
    }
  }

  /** There are ceil(len(text) / every) pieces, as many as range(0, len(text), every) has indices. */
  lemma ChunkCountIsCeiling(text: string, every: nat)
    requires every >= 1
    ensures |Chunks(text, every)| == (|text| + every - 1) / every
  {
    var c := |Chunks(text, every)|;
    if c > 0 {
      TimesIsProduct(c - 1, every);
      TimesIsProduct(c, every);
      CeilingUnique(|text|, every, c);
    }
  }

  /** make_text_readable(text, every): the pieces of `every` characters joined by '\n'. */
  function MakeTextReadable(text: string, every: nat): (r: string)
    requires every >= 1
    ensures text == "" ==> r == ""
    ensures text != "" ==> |r| == |text| + |Chunks(text, every)| - 1
  {
    ChunksConcat(text, every);
    ConcatLength(Chunks(text, every));
    TimesIsProduct(if text == "" then 0 else |Chunks(text, every)| - 1, 1);
    Join("\n", Chunks(text, every))
  }

  /**
   * Line m of make_text_readable's result starts at m * (every + 1) and holds
   * Python's text[m*every : m*every + every].
   */
  lemma MakeTextReadableLine(text: string, every: nat, m: nat)
    requires every >= 1 && m < |Chunks(text, every)|
    ensures var r, i := MakeTextReadable(text, every), Times(m, every);
      i < |text| &&
      var piece := text[i..Min(i + every, |text|)];
      Times(m, every + 1) + |piece| <= |r|
      && r[Times(m, every + 1)..Times(m, every + 1) + |piece|] == piece
  {
    ChunkAt(text, every, m);
    JoinPartAt("\n", Chunks(text, every), every, m);
  }

  /** Every line but the last is `every` characters long and closed by one '\n'. */
  lemma MakeTextReadableBreak(text: string, every: nat, m: nat)
    requires every >= 1 && m < |Chunks(text, every)| - 1
    ensures var r, o := MakeTextReadable(text, every), Times(m, every + 1) + every;
      o < |r| && r[o] == '\n'
  {
    var r := MakeTextReadable(text, every);
    var o := Times(m, every + 1) + every;
    JoinSeparatorAt("\n", Chunks(text, every), every, m);
    assert r[o..o + 1] == "\n";
    assert r[o..o + 1][0] == r[o];
  }
}
