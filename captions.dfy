/**
  Captions for extracted images: which words on a page count as near an
  image, and the caption text made from them
  (lambda-functions/extractImages/lambda_function.py, lines 61-69).
  Coordinates are the PDF parser's page coordinates, taken as reals; the
  code only compares them and adds the tolerance.
*/
module Captions {
  import opened Strings

  /** A bounding box: left edge, top edge, right edge, bottom edge. */
  datatype Box = Box(x0: real, top: real, x1: real, bottom: real)

  /** A word as the PDF parser extracts it from a page. */
  datatype Word = Word(text: string, box: Box)

  /** How far apart, on each axis, a word may be and still be near an image. */
  const Tolerance: real := 50.0

  function Max(a: real, b: real): real { if a >= b then a else b }

  function Min(a: real, b: real): real { if a <= b then a else b }

  /**
    The proximity test applied to an image box and a word box: on each axis,
    the larger of the two start coordinates lies below the smaller of the two
    end coordinates plus the tolerance.
  */
  predicate Near(image: Box, word: Box)
  {
    Max(image.x0, word.x0) < Min(image.x1, word.x1) + Tolerance
    && Max(image.top, word.top) < Min(image.bottom, word.bottom) + Tolerance
  }

  /** A box whose edges are in order. */
  predicate WellFormed(b: Box)
  {
    b.x0 <= b.x1 && b.top <= b.bottom
  }

  /** The two boxes share a region of positive area. */
  predicate Overlap(a: Box, b: Box)
  {
    Max(a.x0, b.x0) < Min(a.x1, b.x1) && Max(a.top, b.top) < Min(a.bottom, b.bottom)
  }

  /** The box grown by `d` on every side. */
  function Grow(b: Box, d: real): Box
  {
    Box(b.x0 - d, b.top - d, b.x1 + d, b.bottom + d)
  }

  // ---------------------------------------------------------------------------
  // What the proximity test means
  // ---------------------------------------------------------------------------

  /** The test is built only from max and min of matching coordinates, so the roles of the boxes can be swapped. */
  lemma NearSymmetric(a: Box, b: Box)
    ensures Near(a, b) <==> Near(b, a)
  {
  }

  /** Boxes that overlap with positive area are near. */
  lemma OverlapIsNear(a: Box, b: Box)
    requires Overlap(a, b)
    ensures Near(a, b)
  {
  }

  /**
    Without any assumption on the boxes, the test is four comparisons per
    axis: each start coordinate lies below each end coordinate plus the
    tolerance.
  */
  lemma NearUnfolded(a: Box, b: Box)
    ensures Near(a, b) <==>
      (a.x0 < a.x1 + Tolerance && a.x0 < b.x1 + Tolerance && b.x0 < a.x1 + Tolerance && b.x0 < b.x1 + Tolerance)
      && (a.top < a.bottom + Tolerance && a.top < b.bottom + Tolerance
          && b.top < a.bottom + Tolerance && b.top < b.bottom + Tolerance)
  {
  }

  /**
    For well-formed boxes the test says that the gap between the boxes is
    under the tolerance on both axes, which is the same as growing each box by
    half the tolerance on every side and asking for a positive-area overlap.
  */
  lemma NearIffGrownOverlap(a: Box, b: Box)
    requires WellFormed(a) && WellFormed(b)
    ensures Near(a, b) <==>
      (b.x0 < a.x1 + Tolerance && a.x0 < b.x1 + Tolerance && b.top < a.bottom + Tolerance && a.top < b.bottom + Tolerance)
    ensures Near(a, b) <==> Overlap(Grow(a, Tolerance / 2.0), Grow(b, Tolerance / 2.0))
  {
  }

  /** A word whose left edge is at least the tolerance past the image's right edge is not near. */
  lemma FarRightIsNotNear(image: Box, word: Box)
    requires word.x0 >= image.x1 + Tolerance
    ensures !Near(image, word)
  {
  }

  // ---------------------------------------------------------------------------
  // Caption text
  // ---------------------------------------------------------------------------

  /** The texts of the words near the image, in the order the parser listed the words. */
  function NearTexts(image: Box, words: seq<Word>): seq<string>
    decreases |words|
  {
    if |words| == 0 then []
    else
      var last := words[|words| - 1];
      NearTexts(image, words[..|words| - 1]) + (if Near(image, last.box) then [last.text] else [])
  }

  /** The caption of an image: the near words' texts joined by single spaces, then stripped. */
  function Caption(image: Box, words: seq<Word>): string
  {
    Strip(Join(" ", NearTexts(image, words)))
  }

  /** The word loop of the handler: collects the near words' texts one word at a time. */
  method CollectNearby(image: Box, words: seq<Word>) returns (nearby: seq<string>)
    ensures nearby == NearTexts(image, words)
  {
    nearby := [];
    for j := 0 to |words|
      invariant nearby == NearTexts(image, words[..j])
    {
      assert words[..j + 1][..j] == words[..j];
      if Near(image, words[j].box) {
        nearby := nearby + [words[j].text];
      }
    }
    assert words[..|words|] == words;
  }

  /** The near texts of two runs of words are those of each run, in order. */
  lemma {:induction false} NearTextsAppend(image: Box, a: seq<Word>, b: seq<Word>)
    ensures NearTexts(image, a + b) == NearTexts(image, a) + NearTexts(image, b)
    decreases |b|
  {
    if |b| == 0 {
      assert a + b == a;
    } else {
      var b' := b[..|b| - 1];
      assert (a + b)[..|a + b| - 1] == a + b';
      assert (a + b)[|a + b| - 1] == b[|b| - 1];
      NearTextsAppend(image, a, b');
    }
  }

  /** A word that is not near the image contributes nothing, wherever it stands. */
  lemma {:induction false} FarWordIgnored(image: Box, a: seq<Word>, w: Word, b: seq<Word>)
    requires !Near(image, w.box)
    ensures NearTexts(image, a + [w] + b) == NearTexts(image, a + b)
  {
    NearTextsAppend(image, a + [w], b);
    NearTextsAppend(image, a, [w]);
    NearTextsAppend(image, a, b);
    assert NearTexts(image, [w]) == [] by {
      assert [w][..0] == [];
    }
  }

  /** Some word near the image has the text `t`. */
  predicate FromNearWord(image: Box, words: seq<Word>, t: string)
  {
    exists j :: 0 <= j < |words| && Near(image, words[j].box) && words[j].text == t
  }

  /** Exactly the near words' texts are collected: both directions, position by position. */
  lemma {:induction false} NearTextsMembers(image: Box, words: seq<Word>)
    ensures forall k :: 0 <= k < |NearTexts(image, words)| ==> FromNearWord(image, words, NearTexts(image, words)[k])
    ensures forall j :: 0 <= j < |words| && Near(image, words[j].box) ==> words[j].text in NearTexts(image, words)
    decreases |words|
  {
    if |words| > 0 {
      var init := words[..|words| - 1];
      var last := words[|words| - 1];
      NearTextsMembers(image, init);
      var r := NearTexts(image, words);
      var ri := NearTexts(image, init);
      assert r == ri + (if Near(image, last.box) then [last.text] else []);
      forall k | 0 <= k < |r| ensures FromNearWord(image, words, r[k]) {
        if k < |ri| {
          assert FromNearWord(image, init, ri[k]);
          var j :| 0 <= j < |init| && Near(image, init[j].box) && init[j].text == ri[k];
          assert words[j] == init[j];
          assert r[k] == ri[k];
        } else {
          assert Near(image, last.box) && r[k] == last.text;
          assert words[|words| - 1] == last;
          assert FromNearWord(image, words, r[k]);
        }
      }
      forall j | 0 <= j < |words| && Near(image, words[j].box) ensures words[j].text in r {
        if j < |init| {
          assert words[j] == init[j];
          assert words[j].text in ri;
        } else {
          assert r[|r| - 1] == last.text;
        }
      }
    }
  }

  /**
    An image gets a non-empty caption exactly when some near word has a
    character that is not whitespace.
  */
  lemma CaptionNonEmptyIff(image: Box, words: seq<Word>)
    ensures Caption(image, words) != "" <==>
      exists j :: 0 <= j < |words| && Near(image, words[j].box) && !AllSpace(words[j].text)
  {
    var texts := NearTexts(image, words);
    StripEmptyIff(Join(" ", texts));
    JoinSpaceAllSpace(texts);
    NearTextsMembers(image, words);
    if Caption(image, words) != "" {
      var k :| 0 <= k < |texts| && !AllSpace(texts[k]);
      assert FromNearWord(image, words, texts[k]);
      var j :| 0 <= j < |words| && Near(image, words[j].box) && words[j].text == texts[k];
    }
    if exists j :: 0 <= j < |words| && Near(image, words[j].box) && !AllSpace(words[j].text) {
      var j :| 0 <= j < |words| && Near(image, words[j].box) && !AllSpace(words[j].text);
      assert words[j].text in texts;
    }
  }

  /** Near words "7" and "cm" followed by a far word give exactly the caption "7 cm". */
  lemma CaptionOfSevenCentimetres(image: Box, words: seq<Word>)
    requires image == Box(100.0, 100.0, 200.0, 200.0)
    requires words == [Word("7", Box(120.0, 210.0, 130.0, 220.0)),
                       Word("cm", Box(135.0, 210.0, 150.0, 220.0)),
                       Word("Question", Box(400.0, 500.0, 480.0, 520.0))]
    ensures Caption(image, words) == "7 cm"
  {
    assert NearTexts(image, words) == ["7", "cm"] by {
      assert words[..2][..1][..0] == [];
      assert NearTexts(image, words[..1]) == ["7"];
      assert NearTexts(image, words[..2]) == ["7", "cm"];
    }
    assert Join(" ", ["7", "cm"]) == "7 cm" by {
      assert ["7", "cm"][1..] == ["cm"];
    }
    StripUnchanged("7 cm");
  }
}
