/**
 * The paragraph pass of `load_document`: the state machine over the current
 * header that groups paragraph texts under the heading that precedes them.
 */
module Sections {
  import opened Wrappers
  import opened Docx

  /** A table grid: one row of stripped cell texts per table row. */
  type Grid = seq<seq<string>>

  /** The record a heading owns: its paragraphs, tables and figures. */
  datatype Record<I> = Record(paragraphs: seq<string>, tables: seq<Grid>, figures: seq<I>)

  /** `content_by_header`: heading text to record. */
  type ContentTree<I> = map<string, Record<I>>

  function EmptyRecord<I>(): Record<I>
  {
    Record([], [], [])
  }

  /** No paragraph of `ps` is a heading. */
  predicate HeadingFree(ps: seq<Paragraph>)
  {
    forall i :: 0 <= i < |ps| ==> !IsHeading(ps[i])
  }

  /** The position of the last heading of `ps`, if there is one. */
  function LastHeading(ps: seq<Paragraph>): (r: Option<nat>)
    ensures r.Some? ==> r.value < |ps| && IsHeading(ps[r.value])
  {
    if ps == [] then None
    else if IsHeading(ps[|ps| - 1]) then Some(|ps| - 1)
    else LastHeading(ps[..|ps| - 1])
  }

  /** `LastHeading` finds the last heading: none follows it, and it is absent only when there is none. */
  lemma {:induction false} LastHeadingIsLast(ps: seq<Paragraph>)
    ensures LastHeading(ps).Some? ==> HeadingFree(ps[LastHeading(ps).value + 1..])
    ensures LastHeading(ps).None? <==> HeadingFree(ps)
    decreases |ps|
  {
    if ps != [] && !IsHeading(ps[|ps| - 1]) {
      var init := ps[..|ps| - 1];
      LastHeadingIsLast(init);
      if LastHeading(init).Some? {
        var i := LastHeading(init).value;
        assert ps[i + 1..] == init[i + 1..] + [ps[|ps| - 1]];
      }
      assert HeadingFree(ps) <==> HeadingFree(init) by {
        if HeadingFree(init) {
          forall i | 0 <= i < |ps| ensures !IsHeading(ps[i]) {
            if i < |init| { assert ps[i] == init[i]; }
          }
        }
      }
    }
  }

  /** `current_header` once the paragraph pass has consumed `ps`. */
  function CurrentHeader(ps: seq<Paragraph>): (h: Option<string>)
    ensures h.None? <==> HeadingFree(ps)
  {
    LastHeadingIsLast(ps);
    match LastHeading(ps)
    case None => None
    case Some(i) => Some(ps[i].text)
  }

  /** The position of the last heading of `ps` whose text is `k`, if there is one. */
  function LastHeadingWith(ps: seq<Paragraph>, k: string): (r: Option<nat>)
    ensures r.Some? ==> r.value < |ps| && IsHeading(ps[r.value]) && ps[r.value].text == k
  {
    if ps == [] then None
    else if IsHeading(ps[|ps| - 1]) && ps[|ps| - 1].text == k then Some(|ps| - 1)
    else LastHeadingWith(ps[..|ps| - 1], k)
  }

  /** `LastHeadingWith` finds the last heading with text `k`, and is absent only when there is none. */
  lemma {:induction false} LastHeadingWithIsLast(ps: seq<Paragraph>, k: string)
    ensures LastHeadingWith(ps, k).Some? ==>
      forall j :: LastHeadingWith(ps, k).value < j < |ps| ==> !(IsHeading(ps[j]) && ps[j].text == k)
    ensures LastHeadingWith(ps, k).None? <==>
      forall j :: 0 <= j < |ps| ==> !(IsHeading(ps[j]) && ps[j].text == k)
    decreases |ps|
  {
    if ps != [] {
      var init := ps[..|ps| - 1];
      LastHeadingWithIsLast(init, k);
      assert forall j :: 0 <= j < |init| ==> ps[j] == init[j];
    }
  }

  /** The texts of the paragraphs of `ps` that come before its first heading. */
  function Body(ps: seq<Paragraph>): seq<string>
  {
    if ps == [] || IsHeading(ps[0]) then [] else [ps[0].text] + Body(ps[1..])
  }

  function AddParagraph<I>(r: Record<I>, text: string): Record<I>
  {
    r.(paragraphs := r.paragraphs + [text])
  }

  /**
   * The content tree after the paragraph pass over `ps`: a heading installs a
   * fresh record under its text, any other paragraph goes to the current
   * header's record, and paragraphs before the first heading are dropped.
   */
  function ParagraphPass<I>(ps: seq<Paragraph>): (t: ContentTree<I>)
    ensures CurrentHeader(ps).Some? ==> CurrentHeader(ps).value in t
  {
    if ps == [] then map[]
    else
      var init, p := ps[..|ps| - 1], ps[|ps| - 1];
      var t := ParagraphPass<I>(init);
      if IsHeading(p) then t[p.text := EmptyRecord()]
      else match CurrentHeader(init)
        case None => t
        case Some(h) => t[h := AddParagraph(t[h], p.text)]
  }

  /** Appending one paragraph extends the body only when no heading came before it. */
  lemma {:induction false} BodySnoc(xs: seq<Paragraph>, p: Paragraph)
    ensures Body(xs + [p]) ==
      if HeadingFree(xs) then Body(xs) + (if IsHeading(p) then [] else [p.text]) else Body(xs)
    decreases |xs|
  {
    if xs != [] && !IsHeading(xs[0]) {
      assert (xs + [p])[1..] == xs[1..] + [p];
      BodySnoc(xs[1..], p);
      assert HeadingFree(xs) <==> HeadingFree(xs[1..]) by {
        if HeadingFree(xs[1..]) {
          forall i | 0 <= i < |xs| ensures !IsHeading(xs[i]) {
            if i > 0 { assert xs[i] == xs[1..][i - 1]; }
          }
        }
      }
    }
  }

  /** One more paragraph: how the last matching heading moves. */
  lemma LastHeadingWithSnoc(init: seq<Paragraph>, p: Paragraph, k: string)
    ensures LastHeadingWith(init + [p], k) ==
      if IsHeading(p) && p.text == k then Some(|init|) else LastHeadingWith(init, k)
  {
    assert (init + [p])[..|init|] == init;
  }

  /** One more paragraph: how the current header moves. */
  lemma CurrentHeaderSnoc(init: seq<Paragraph>, p: Paragraph)
    ensures CurrentHeader(init + [p]) == if IsHeading(p) then Some(p.text) else CurrentHeader(init)
  {
    assert (init + [p])[..|init|] == init;
  }

  /** One more paragraph: one step of the state machine. */
  lemma ParagraphPassSnoc<I>(init: seq<Paragraph>, p: Paragraph)
    ensures ParagraphPass<I>(init + [p]) ==
      if IsHeading(p) then ParagraphPass<I>(init)[p.text := EmptyRecord()]
      else match CurrentHeader(init)
        case None => ParagraphPass<I>(init)
        case Some(h) => ParagraphPass<I>(init)[h := AddParagraph(ParagraphPass<I>(init)[h], p.text)]
  {
    assert (init + [p])[..|init|] == init;
  }

  /** The record `k` owns after the paragraph pass over `ps`, as the section lemma states it. */
  predicate SectionOf<I>(t: ContentTree<I>, ps: seq<Paragraph>, k: string)
  {
    && (k in t <==> LastHeadingWith(ps, k).Some?)
    && (k in t ==> t[k] == Record(Body(ps[LastHeadingWith(ps, k).value + 1..]), [], []))
  }

  /** A heading installs a fresh, empty record under its own text... */
  lemma SectionStepNewHeading<I>(t: ContentTree<I>, init: seq<Paragraph>, p: Paragraph)
    requires IsHeading(p)
    ensures SectionOf(t[p.text := EmptyRecord()], init + [p], p.text)
  {
    LastHeadingWithSnoc(init, p, p.text);
    assert (init + [p])[|init| + 1..] == [];
  }

  /** ...and ends every other section. */
  lemma SectionStepOtherHeading<I>(t: ContentTree<I>, init: seq<Paragraph>, p: Paragraph, k: string)
    requires SectionOf(t, init, k) && IsHeading(p) && p.text != k
    ensures SectionOf(t[p.text := EmptyRecord()], init + [p], k)
  {
    LastHeadingWithSnoc(init, p, k);
    if LastHeadingWith(init, k).Some? {
      var j := LastHeadingWith(init, k).value;
      assert (init + [p])[j + 1..] == init[j + 1..] + [p];
      BodySnoc(init[j + 1..], p);
    }
  }

  /** Before any heading a paragraph is dropped. */
  lemma SectionStepDrop<I>(t: ContentTree<I>, init: seq<Paragraph>, p: Paragraph, k: string)
    requires SectionOf(t, init, k) && HeadingFree(init) && !IsHeading(p)
    ensures SectionOf(t, init + [p], k)
  {
    LastHeadingWithSnoc(init, p, k);
    LastHeadingWithIsLast(init, k);
  }

  /** After a heading a paragraph extends the current section... */
  lemma SectionStepCurrent<I>(t: ContentTree<I>, init: seq<Paragraph>, p: Paragraph, h: string)
    requires SectionOf(t, init, h) && !IsHeading(p)
    requires CurrentHeader(init) == Some(h) && h in t
    ensures SectionOf(t[h := AddParagraph(t[h], p.text)], init + [p], h)
  {
    var ps := init + [p];
    LastHeadingWithSnoc(init, p, h);
    var j := LastHeadingWith(init, h).value;
    var last := LastHeading(init).value;
    LastHeadingIsLast(init);
    LastHeadingWithIsLast(init, h);
    assert j == last;
    assert ps[j + 1..] == init[j + 1..] + [p];
    BodySnoc(init[j + 1..], p);
  }

  /** ...and no other. */
  lemma SectionStepOther<I>(t: ContentTree<I>, init: seq<Paragraph>, p: Paragraph, k: string, h: string)
    requires SectionOf(t, init, k) && !IsHeading(p) && k != h
    requires CurrentHeader(init) == Some(h) && h in t
    ensures SectionOf(t[h := AddParagraph(t[h], p.text)], init + [p], k)
  {
    var ps := init + [p];
    LastHeadingWithSnoc(init, p, k);
    if LastHeadingWith(init, k).Some? {
      var j := LastHeadingWith(init, k).value;
      var last := LastHeading(init).value;
      LastHeadingIsLast(init);
      assert j < last;
      assert init[j + 1..][last - j - 1] == init[last];
      assert ps[j + 1..] == init[j + 1..] + [p];
      BodySnoc(init[j + 1..], p);
    }
  }

  /**
   * What the paragraph pass builds for one key: `k` has a record exactly when
   * some heading has text `k`, and that record holds, in document order, the
   * texts of the paragraphs between the LAST such heading and the next
   * heading, and no tables or figures.
   */
  lemma {:induction false} ParagraphPassSection<I>(ps: seq<Paragraph>, k: string)
    ensures k in ParagraphPass<I>(ps) <==> LastHeadingWith(ps, k).Some?
    ensures k in ParagraphPass<I>(ps) ==>
      ParagraphPass<I>(ps)[k] == Record(Body(ps[LastHeadingWith(ps, k).value + 1..]), [], [])
    decreases |ps|
  {
    if ps != [] {
      var init, p := ps[..|ps| - 1], ps[|ps| - 1];
      ParagraphPassSection<I>(init, k);
      var t := ParagraphPass<I>(init);
      assert init + [p] == ps;
      ParagraphPassSnoc<I>(init, p);
      if IsHeading(p) {
        if p.text == k {
          SectionStepNewHeading(t, init, p);
        } else {
          SectionStepOtherHeading(t, init, p, k);
        }
      } else {
        match CurrentHeader(init)
        case None =>
          LastHeadingIsLast(init);
          SectionStepDrop(t, init, p, k);
        case Some(h) =>
          if k == h {
            SectionStepCurrent(t, init, p, h);
          } else {
            SectionStepOther(t, init, p, k, h);
          }
      }
    }
  }

  /** Paragraphs before the first heading change nothing: they are in no record. */
  lemma {:induction false} HeadingFreePrefix<I>(pre: seq<Paragraph>, ps: seq<Paragraph>)
    requires HeadingFree(pre)
    ensures ParagraphPass<I>(pre + ps) == ParagraphPass<I>(ps)
    ensures CurrentHeader(pre + ps) == CurrentHeader(ps)
    decreases |ps|
  {
    if ps == [] {
      assert pre + ps == pre;
      PassOverHeadingFree<I>(pre);
    } else {
      var init, p := ps[..|ps| - 1], ps[|ps| - 1];
      HeadingFreePrefix<I>(pre, init);
      assert pre + ps == (pre + init) + [p];
      assert ps == init + [p];
      ParagraphPassSnoc<I>(pre + init, p);
      ParagraphPassSnoc<I>(init, p);
      CurrentHeaderSnoc(pre + init, p);
      CurrentHeaderSnoc(init, p);
    }
  }

  /** A heading-free paragraph sequence yields an empty tree and no current header. */
  lemma {:induction false} PassOverHeadingFree<I>(ps: seq<Paragraph>)
    requires HeadingFree(ps)
    ensures ParagraphPass<I>(ps) == map[]
    decreases |ps|
  {
    if ps != [] {
      PassOverHeadingFree<I>(ps[..|ps| - 1]);
    }
  }
}
