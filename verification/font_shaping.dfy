/**
 Placing glyphs along a line of text (the offset loop of
 `FontFace::GetShapedGlyphs`). Each UCS-2 unit becomes one glyph; the pen
 starts at the origin, is moved by the kerning between a glyph and the one
 before it, and after each glyph by that glyph's advance plus the extra
 advance the caller asks for. FreeType's character map, kerning table and
 advances are parameters of the model.
 */
module FontShaping {
  import opened ParserTypes
  import opened FontOutline

  /** What the model needs of a FreeType face, already scaled into scene space:
      `FT_Get_Char_Index`, `GetKerning` (zero when the face has no kerning) and
      `GetAdvance`. */
  datatype FontMetrics = FontMetrics(charIndex: bv16 -> nat, kerning: (nat, nat) -> Vec2, advance: nat -> Vec2)

  /** FreeType's kerning and advances, as `GetKerning` and `GetAdvance` return them, only ever
      move the pen along the x axis. */
  ghost predicate Horizontal(face: FontMetrics)
  {
    && (forall g, h :: face.kerning(g, h).y == 0.0)
    && (forall g :: face.advance(g).y == 0.0)
  }

  /** `ShapedGlyph`: the character, its glyph in the face, and where it is drawn. */
  datatype ShapedGlyph = ShapedGlyph(codePoint: bv16, glyphIndex: nat, offset: Vec2)

  /** How far the pen moves from glyph `i` to glyph `i + 1` of `text`. */
  function PenStep(face: FontMetrics, text: UCS2String, advance: Vec2, i: nat): Vec2
    requires i + 1 < |text|
  {
    var g := face.charIndex(text[i]);
    var h := face.charIndex(text[i + 1]);
    Plus(Plus(face.advance(g), advance), face.kerning(g, h))
  }

  /** Where glyph `i` of `text` is drawn: the sum of the pen steps before it. */
  function PenOffset(face: FontMetrics, text: UCS2String, advance: Vec2, i: nat): Vec2
    requires i < |text|
    decreases i
  {
    if i == 0 then Origin()
    else Plus(PenOffset(face, text, advance, i - 1), PenStep(face, text, advance, i - 1))
  }

  /** One more pen step, in the order `GetShapedGlyphs` adds up its terms. */
  lemma PenOffsetStep(face: FontMetrics, text: UCS2String, advance: Vec2, k: nat)
    requires 0 < k < |text|
    ensures var g := face.charIndex(text[k - 1]);
            PenOffset(face, text, advance, k)
            == Plus(Plus(Plus(PenOffset(face, text, advance, k - 1), face.advance(g)), advance),
                    face.kerning(g, face.charIndex(text[k])))
  {
  }

  /** `GetShapedGlyphs`: one glyph per unit of `text`, in order, each at its pen offset. The
      first glyph sits at the origin, and each next one is moved from the one before by that
      glyph's advance, the extra `advance` and the kerning of the pair. */
  method GetShapedGlyphs(face: FontMetrics, text: UCS2String, advance: Vec2) returns (glyphs: seq<ShapedGlyph>)
    ensures |glyphs| == |text|
    ensures forall i :: 0 <= i < |text| ==>
              glyphs[i].codePoint == text[i] && glyphs[i].glyphIndex == face.charIndex(text[i])
    ensures |text| > 0 ==> glyphs[0].offset == Origin()
    ensures forall i :: 0 < i < |text| ==>
              glyphs[i].offset == Plus(Plus(Plus(glyphs[i - 1].offset, face.advance(glyphs[i - 1].glyphIndex)), advance),
                                       face.kerning(glyphs[i - 1].glyphIndex, glyphs[i].glyphIndex))
    ensures forall i :: 0 <= i < |text| ==> glyphs[i].offset == PenOffset(face, text, advance, i)
  {
    glyphs := [];
    var offset := Origin();
    var previousGlyphIndex: nat := 0;
    var firstCharacter := true;
    var k := 0;
    while k < |text|
      invariant 0 <= k <= |text|
      invariant |glyphs| == k
      invariant firstCharacter <==> k == 0
      invariant forall i :: 0 <= i < k ==>
                  glyphs[i].codePoint == text[i] && glyphs[i].glyphIndex == face.charIndex(text[i])
      invariant forall i :: 0 <= i < k ==> glyphs[i].offset == PenOffset(face, text, advance, i)
      invariant k == 0 ==> offset == Origin()
      invariant k > 0 ==> previousGlyphIndex == glyphs[k - 1].glyphIndex
      invariant k > 0 ==> offset == Plus(Plus(glyphs[k - 1].offset, face.advance(previousGlyphIndex)), advance)
    {
      var c := text[k];
      var glyphIndex := face.charIndex(c);
      if !firstCharacter {
        offset := Plus(offset, face.kerning(previousGlyphIndex, glyphIndex));
      }
      if k > 0 {
        PenOffsetStep(face, text, advance, k);
        assert glyphs[k - 1].glyphIndex == face.charIndex(text[k - 1]);
        assert glyphs[k - 1].offset == PenOffset(face, text, advance, k - 1);
        assert offset == PenOffset(face, text, advance, k);
      }
      var before := glyphs;
      glyphs := glyphs + [ShapedGlyph(c, glyphIndex, offset)];
      var placed := PenOffset(face, text, advance, k);
      assert glyphs[k].offset == placed;
      forall i | 0 <= i <= k
        ensures glyphs[i].codePoint == text[i] && glyphs[i].glyphIndex == face.charIndex(text[i])
        ensures glyphs[i].offset == PenOffset(face, text, advance, i)
      {
        if i < k {
          assert glyphs[i] == before[i];
          assert before[i].offset == PenOffset(face, text, advance, i);
        } else {
          assert glyphs[i].offset == placed;
        }
      }
      offset := Plus(Plus(offset, face.advance(glyphIndex)), advance);
      previousGlyphIndex := glyphIndex;
      firstCharacter := false;
      k := k + 1;
    }
  }

  /** Without kerning, and with every advance along the x axis, the glyphs sit on the
      baseline and glyph `i` is `i` steps along it. */
  lemma {:induction false} UniformSpacing(face: FontMetrics, text: UCS2String, advance: Vec2, w: real, i: nat)
    requires i < |text|
    requires forall g, h :: face.kerning(g, h) == Origin()
    requires forall g :: face.advance(g) == Vec2(w, 0.0)
    requires advance.y == 0.0
    ensures PenOffset(face, text, advance, i) == Vec2(i as real * (w + advance.x), 0.0)
    decreases i
  {
    if i > 0 {
      UniformSpacing(face, text, advance, w, i - 1);
    }
  }

  /** With a face whose kerning and advances are horizontal, and an extra advance along the x
      axis, every glyph sits on the baseline. */
  lemma {:induction false} OnBaseline(face: FontMetrics, text: UCS2String, advance: Vec2, i: nat)
    requires i < |text|
    requires Horizontal(face) && advance.y == 0.0
    ensures PenOffset(face, text, advance, i).y == 0.0
    decreases i
  {
    if i > 0 {
      OnBaseline(face, text, advance, i - 1);
      var g := face.charIndex(text[i - 1]);
      assert face.advance(g).y == 0.0;
      assert face.kerning(g, face.charIndex(text[i])).y == 0.0;
    }
  }
}
