/**
 * `load_document` and `extract_images`: the paragraph pass of module
 * Sections, then the figure pass over the image relationships and the table
 * pass, both of which attach to the header current at the end of the
 * paragraph pass.
 */
module Extractor {
  import opened Wrappers
  import opened Text
  import opened Docx
  import opened Sections

  /** A blob that the image decoder rejects; it aborts the whole extraction. */
  datatype ExtractError = DecodeError

  /** `if current_header:`: a header is present and its text is not empty. */
  predicate Truthy(h: Option<string>)
  {
    h.Some? && h.value != ""
  }

  /**
   * The positions of the image relationships of `rels`, in iteration order:
   * every listed position is an image relationship, the positions increase,
   * and no image relationship is left out.
   */
  function ImageIndices(rels: seq<Relationship>): (idx: seq<nat>)
    ensures forall n :: 0 <= n < |idx| ==> idx[n] < |rels| && IsImage(rels[idx[n]])
    ensures forall n, m :: 0 <= n < m < |idx| ==> idx[n] < idx[m]
    ensures forall i :: 0 <= i < |rels| && IsImage(rels[i]) ==> i in idx
  {
    if rels == [] then []
    else
      var init := ImageIndices(rels[..|rels| - 1]);
      assert forall i :: 0 <= i < |rels| - 1 ==> rels[..|rels| - 1][i] == rels[i];
      init + if IsImage(rels[|rels| - 1]) then [|rels| - 1] else []
  }

  /** The blobs of the image relationships of `rels`, in iteration order. */
  function ImageBlobs(rels: seq<Relationship>): seq<Blob>
  {
    if rels == [] then []
    else
      var last := rels[|rels| - 1];
      ImageBlobs(rels[..|rels| - 1]) + if IsImage(last) then [last.blob] else []
  }

  /** One more relationship adds its blob exactly when it is an image relationship. */
  lemma ImageBlobsSnoc(rels: seq<Relationship>, rel: Relationship)
    ensures ImageBlobs(rels + [rel]) == ImageBlobs(rels) + if IsImage(rel) then [rel.blob] else []
  {
    assert (rels + [rel])[..|rels|] == rels;
  }

  /** The image blobs are those of the image relationships, one per position. */
  lemma {:induction false} ImageBlobsAt(rels: seq<Relationship>)
    ensures |ImageBlobs(rels)| == |ImageIndices(rels)|
    ensures forall n :: 0 <= n < |ImageBlobs(rels)| ==>
      ImageBlobs(rels)[n] == rels[ImageIndices(rels)[n]].blob
    decreases |rels|
  {
    if rels != [] {
      var init := rels[..|rels| - 1];
      ImageBlobsAt(init);
      assert forall i :: 0 <= i < |init| ==> init[i] == rels[i];
    }
  }

  /** Decode every blob, failing as soon as one is rejected. */
  function DecodeAll<I>(bs: seq<Blob>, decode: Blob -> Option<I>): (r: Option<seq<I>>)
    ensures r.Some? ==> |r.value| == |bs| && forall n :: 0 <= n < |bs| ==> decode(bs[n]) == Some(r.value[n])
    ensures r.None? <==> exists n :: 0 <= n < |bs| && decode(bs[n]).None?
  {
    if bs == [] then Some([])
    else
      var init := bs[..|bs| - 1];
      assert forall n :: 0 <= n < |init| ==> init[n] == bs[n];
      match DecodeAll(init, decode)
      case None => None
      case Some(images) =>
        match decode(bs[|bs| - 1])
        case None => None
        case Some(image) => Some(images + [image])
  }

  /** Decoding one more blob extends the decoded images or fails. */
  lemma DecodeAllSnoc<I>(bs: seq<Blob>, b: Blob, decode: Blob -> Option<I>)
    ensures DecodeAll(bs + [b], decode) ==
      match DecodeAll(bs, decode)
      case None => None
      case Some(images) => if decode(b).None? then None else Some(images + [decode(b).value])
  {
    assert (bs + [b])[..|bs|] == bs;
  }

  /** What `extract_images` returns: the decoded image relationships, or the decode error. */
  function DecodeImages<I>(rels: seq<Relationship>, decode: Blob -> Option<I>): (r: Result<seq<I>, ExtractError>)
    ensures r.Success? ==> |r.value| == |ImageIndices(rels)|
  {
    ImageBlobsAt(rels);
    match DecodeAll(ImageBlobs(rels), decode)
    case None => Failure(DecodeError)
    case Some(images) => Success(images)
  }

  /** One image relationship whose blob does not decode fails the whole decoding. */
  lemma DecodeFailsAt<I>(rels: seq<Relationship>, i: nat, decode: Blob -> Option<I>)
    requires i < |rels| && IsImage(rels[i]) && decode(rels[i].blob).None?
    ensures DecodeImages(rels, decode) == Failure(DecodeError)
  {
    ImageBlobsAt(rels);
    var idx := ImageIndices(rels);
    var n :| 0 <= n < |idx| && idx[n] == i;
    assert decode(ImageBlobs(rels)[n]).None?;
  }

  /**
   * The filter semantics of `extract_images`: it fails exactly when some image
   * relationship's blob does not decode; otherwise it returns one image per
   * image relationship, in iteration order, and none for the others.
   */
  lemma DecodeImagesMeaning<I>(rels: seq<Relationship>, decode: Blob -> Option<I>)
    ensures DecodeImages(rels, decode).Failure? <==>
      exists i :: 0 <= i < |rels| && IsImage(rels[i]) && decode(rels[i].blob).None?
    ensures DecodeImages(rels, decode).Success? ==>
      var images, idx := DecodeImages(rels, decode).value, ImageIndices(rels);
      |images| == |idx| && forall n :: 0 <= n < |idx| ==> decode(rels[idx[n]].blob) == Some(images[n])
  {
    ImageBlobsAt(rels);
    var bs, idx := ImageBlobs(rels), ImageIndices(rels);
    if i :| 0 <= i < |rels| && IsImage(rels[i]) && decode(rels[i].blob).None? {
      DecodeFailsAt(rels, i, decode);
    }
    if DecodeImages(rels, decode).Failure? {
      var n :| 0 <= n < |bs| && decode(bs[n]).None?;
      assert IsImage(rels[idx[n]]) && decode(rels[idx[n]].blob).None?;
    }
  }

  /** One grid row: the stripped text of every cell of a table row, in cell order. */
  function StripCells(cells: seq<string>): (row: seq<string>)
    ensures |row| == |cells|
    ensures forall j :: 0 <= j < |cells| ==> row[j] == Strip(cells[j])
  {
    seq(|cells|, j requires 0 <= j < |cells| => Strip(cells[j]))
  }

  /**
   * The grid built for one table: one row per table row, each row as long as
   * that row's cells, entry [i][j] the stripped text of cell j of row i.
   */
  function TableGrid(table: Table): (g: Grid)
    ensures |g| == |table|
    ensures forall i :: 0 <= i < |table| ==> g[i] == StripCells(table[i])
  {
    seq(|table|, i requires 0 <= i < |table| => StripCells(table[i]))
  }

  /** The grids of all tables, in table order. */
  function Grids(tables: seq<Table>): (gs: seq<Grid>)
    ensures |gs| == |tables|
    ensures forall i :: 0 <= i < |tables| ==> gs[i] == TableGrid(tables[i])
  {
    seq(|tables|, i requires 0 <= i < |tables| => TableGrid(tables[i]))
  }

  /** Append `images` to the figures of header `h` when `h` is truthy. */
  function AttachFigures<I>(t: ContentTree<I>, h: Option<string>, images: seq<I>): (r: ContentTree<I>)
    requires Truthy(h) ==> h.value in t
    ensures r.Keys == t.Keys
    ensures forall k :: k in t && !(Truthy(h) && k == h.value) ==> r[k] == t[k]
    ensures Truthy(h) ==> r[h.value].paragraphs == t[h.value].paragraphs && r[h.value].tables == t[h.value].tables
    ensures Truthy(h) ==> r[h.value].figures == t[h.value].figures + images
  {
    if Truthy(h) then t[h.value := t[h.value].(figures := t[h.value].figures + images)] else t
  }

  /** Append `grids` to the tables of header `h` when `h` is truthy. */
  function AttachTables<I>(t: ContentTree<I>, h: Option<string>, grids: seq<Grid>): (r: ContentTree<I>)
    requires Truthy(h) ==> h.value in t
    ensures r.Keys == t.Keys
    ensures forall k :: k in t && !(Truthy(h) && k == h.value) ==> r[k] == t[k]
    ensures Truthy(h) ==> r[h.value].paragraphs == t[h.value].paragraphs && r[h.value].figures == t[h.value].figures
    ensures Truthy(h) ==> r[h.value].tables == t[h.value].tables + grids
  {
    if Truthy(h) then t[h.value := t[h.value].(tables := t[h.value].tables + grids)] else t
  }

  /** Attaching one more image is appending it to the truthy header's figures. */
  lemma AttachFiguresSnoc<I>(t: ContentTree<I>, h: Option<string>, images: seq<I>, image: I)
    requires Truthy(h) ==> h.value in t
    ensures var u := AttachFigures(t, h, images);
      AttachFigures(t, h, images + [image]) ==
        if Truthy(h) then u[h.value := u[h.value].(figures := u[h.value].figures + [image])] else u
  {
    if Truthy(h) {
      assert (t[h.value].figures + images) + [image] == t[h.value].figures + (images + [image]);
    }
  }

  /** Attaching one more grid is appending it to the truthy header's tables. */
  lemma AttachTablesSnoc<I>(t: ContentTree<I>, h: Option<string>, grids: seq<Grid>, grid: Grid)
    requires Truthy(h) ==> h.value in t
    ensures var u := AttachTables(t, h, grids);
      AttachTables(t, h, grids + [grid]) ==
        if Truthy(h) then u[h.value := u[h.value].(tables := u[h.value].tables + [grid])] else u
  {
    if Truthy(h) {
      assert (t[h.value].tables + grids) + [grid] == t[h.value].tables + (grids + [grid]);
    }
  }

  /** What `load_document` returns for `doc`. */
  function Extract<I>(doc: Document, decode: Blob -> Option<I>): (r: Result<ContentTree<I>, ExtractError>)
    ensures r.Success? ==> r.value.Keys == ParagraphPass<I>(doc.paragraphs).Keys
    ensures r.Success? ==> forall k :: k in r.value ==> r.value[k].paragraphs == ParagraphPass<I>(doc.paragraphs)[k].paragraphs
  {
    var t := ParagraphPass<I>(doc.paragraphs);
    var h := CurrentHeader(doc.paragraphs);
    match DecodeImages(doc.rels, decode)
    case Failure(e) => Failure(e)
    case Success(images) => Success(AttachTables(AttachFigures(t, h, images), h, Grids(doc.tables)))
  }

  /**
   * The extraction fails exactly when the blob of some image relationship does
   * not decode, whether or not there is a header to attach it to.
   */
  lemma ExtractFails<I>(doc: Document, decode: Blob -> Option<I>)
    ensures Extract(doc, decode).Failure? <==>
      exists i :: 0 <= i < |doc.rels| && IsImage(doc.rels[i]) && decode(doc.rels[i].blob).None?
  {
    DecodeImagesMeaning(doc.rels, decode);
  }

  /**
   * The keys and paragraphs of a successful extraction: `k` is a key exactly
   * when some heading has text `k`, and its paragraphs are the texts between
   * the last heading with text `k` and the next heading.
   */
  lemma ExtractSection<I>(doc: Document, decode: Blob -> Option<I>, k: string)
    requires Extract(doc, decode).Success?
    ensures k in Extract(doc, decode).value <==> LastHeadingWith(doc.paragraphs, k).Some?
    ensures k in Extract(doc, decode).value ==>
      Extract(doc, decode).value[k].paragraphs ==
        Body(doc.paragraphs[LastHeadingWith(doc.paragraphs, k).value + 1..])
  {
    ParagraphPassSection<I>(doc.paragraphs, k);
  }

  /**
   * Figures and tables go only to the final heading, and only when its text is
   * not empty: every other record, and every record when there is no such
   * heading, has no figures and no tables.
   */
  lemma ExtractAttachesToFinalHeader<I>(doc: Document, decode: Blob -> Option<I>, k: string)
    requires Extract(doc, decode).Success? && k in Extract(doc, decode).value
    requires !Truthy(CurrentHeader(doc.paragraphs)) || CurrentHeader(doc.paragraphs).value != k
    ensures Extract(doc, decode).value[k].figures == []
    ensures Extract(doc, decode).value[k].tables == []
  {
    ParagraphPassSection<I>(doc.paragraphs, k);
  }

  /**
   * When the final heading's text is not empty, its record holds every decoded
   * image, one per image relationship, in iteration order.
   */
  lemma ExtractFinalFigures<I>(doc: Document, decode: Blob -> Option<I>)
    requires Extract(doc, decode).Success? && Truthy(CurrentHeader(doc.paragraphs))
    ensures CurrentHeader(doc.paragraphs).value in Extract(doc, decode).value
    ensures var r, idx := Extract(doc, decode).value[CurrentHeader(doc.paragraphs).value], ImageIndices(doc.rels);
      |r.figures| == |idx| && forall n :: 0 <= n < |idx| ==> decode(doc.rels[idx[n]].blob) == Some(r.figures[n])
  {
    var h := CurrentHeader(doc.paragraphs).value;
    var t := ParagraphPass<I>(doc.paragraphs);
    ParagraphPassSection<I>(doc.paragraphs, h);
    assert t[h].figures == [];
    DecodeImagesMeaning(doc.rels, decode);
    var images := DecodeImages(doc.rels, decode).value;
    var final := AttachTables(AttachFigures(t, Some(h), images), Some(h), Grids(doc.tables));
    assert Extract(doc, decode).value == final;
    assert final[h].figures == images;
  }

  /**
   * When the final heading's text is not empty, its record holds every
   * table's grid, in table order.
   */
  lemma ExtractFinalTables<I>(doc: Document, decode: Blob -> Option<I>)
    requires Extract(doc, decode).Success? && Truthy(CurrentHeader(doc.paragraphs))
    ensures CurrentHeader(doc.paragraphs).value in Extract(doc, decode).value
    ensures var r := Extract(doc, decode).value[CurrentHeader(doc.paragraphs).value];
      |r.tables| == |doc.tables| && forall i :: 0 <= i < |doc.tables| ==> r.tables[i] == TableGrid(doc.tables[i])
  {
    var h := CurrentHeader(doc.paragraphs).value;
    var t := ParagraphPass<I>(doc.paragraphs);
    ParagraphPassSection<I>(doc.paragraphs, h);
    assert t[h].tables == [];
    var images := DecodeImages(doc.rels, decode).value;
    var final := AttachTables(AttachFigures(t, Some(h), images), Some(h), Grids(doc.tables));
    assert Extract(doc, decode).value == final;
    assert final[h].tables == Grids(doc.tables);
  }

  /** Paragraphs before the first heading do not show in the extraction. */
  lemma ExtractIgnoresLeadingText<I>(pre: seq<Paragraph>, doc: Document, decode: Blob -> Option<I>)
    requires HeadingFree(pre)
    ensures Extract(doc.(paragraphs := pre + doc.paragraphs), decode) == Extract(doc, decode)
  {
    HeadingFreePrefix<I>(pre, doc.paragraphs);
  }

  /** `extract_images`: decode the blob of every image relationship, in iteration order. */
  method ExtractImages<I>(rels: seq<Relationship>, decode: Blob -> Option<I>) returns (r: Result<seq<I>, ExtractError>)
    ensures r == DecodeImages(rels, decode)
  {
    var images: seq<I> := [];
    var i := 0;
    while i < |rels|
      invariant 0 <= i <= |rels|
      invariant DecodeAll(ImageBlobs(rels[..i]), decode) == Some(images)
    {
      assert rels[..i + 1] == rels[..i] + [rels[i]];
      ImageBlobsSnoc(rels[..i], rels[i]);
      if IsImage(rels[i]) {
        DecodeAllSnoc(ImageBlobs(rels[..i]), rels[i].blob, decode);
        match decode(rels[i].blob)
        case None =>
          DecodeFailsAt(rels, i, decode);
          return Failure(DecodeError);
        case Some(image) =>
          images := images + [image];
      } else {
        assert ImageBlobs(rels[..i + 1]) == ImageBlobs(rels[..i]);
      }
      i := i + 1;
    }
    assert rels[..i] == rels;
    return Success(images);
  }

  /** The inner loop of the table pass: overwrite every entry of a row with its stripped cell text. */
  method FillRow(row: seq<string>, cells: seq<string>) returns (filled: seq<string>)
    requires |row| == |cells|
    ensures filled == StripCells(cells)
  {
    filled := row;
    for j := 0 to |cells|
      invariant |filled| == |cells|
      invariant forall c :: 0 <= c < j ==> filled[c] == Strip(cells[c])
    {
      filled := filled[j := Strip(cells[j])];
    }
  }

  /**
   * One table's grid: allocate one row of empty strings per table row, sized
   * by that row's cells, then fill entry [i][j] with the stripped text of cell j.
   */
  method BuildGrid(table: Table) returns (g: Grid)
    ensures g == TableGrid(table)
  {
    g := seq(|table|, i requires 0 <= i < |table| => seq(|table[i]|, j => ""));
    for i := 0 to |table|
      invariant |g| == |table|
      invariant forall r :: 0 <= r < i ==> g[r] == StripCells(table[r])
      invariant forall r :: i <= r < |table| ==> |g[r]| == |table[r]|
    {
      var row := FillRow(g[i], table[i]);
      g := g[i := row];
    }
  }

  /**
   * The paragraph pass of `load_document`: the tree it builds and the header
   * current at its end.
   */
  method GroupParagraphs<I>(paragraphs: seq<Paragraph>) returns (content: ContentTree<I>, current: Option<string>)
    ensures content == ParagraphPass<I>(paragraphs)
    ensures current == CurrentHeader(paragraphs)
  {
    content, current := map[], None;
    var i := 0;
    while i < |paragraphs|
      invariant 0 <= i <= |paragraphs|
      invariant content == ParagraphPass<I>(paragraphs[..i])
      invariant current == CurrentHeader(paragraphs[..i])
    {
      var para := paragraphs[i];
      assert paragraphs[..i + 1] == paragraphs[..i] + [para];
      ParagraphPassSnoc<I>(paragraphs[..i], para);
      CurrentHeaderSnoc(paragraphs[..i], para);
      if IsHeading(para) {
        current := Some(para.text);
        content := content[current.value := EmptyRecord()];
      } else if current.Some? {
        content := content[current.value := AddParagraph(content[current.value], para.text)];
      }
      i := i + 1;
    }
    assert paragraphs[..i] == paragraphs;
  }

  /**
   * The figure pass of `load_document`: decode the blob of every image
   * relationship and, when `current` is truthy, append it to that header's
   * figures; the first blob that does not decode aborts the whole pass.
   */
  method AddFigures<I>(sections: ContentTree<I>, current: Option<string>, rels: seq<Relationship>,
                       decode: Blob -> Option<I>) returns (r: Result<ContentTree<I>, ExtractError>)
    requires Truthy(current) ==> current.value in sections
    ensures r == match DecodeImages(rels, decode)
      case Failure(e) => Failure(e)
      case Success(images) => Success(AttachFigures(sections, current, images))
  {
    var content := sections;
    assert Truthy(current) ==> sections[current.value].figures + [] == sections[current.value].figures;
    ghost var images: seq<I> := [];
    var j := 0;
    while j < |rels|
      invariant 0 <= j <= |rels|
      invariant DecodeAll(ImageBlobs(rels[..j]), decode) == Some(images)
      invariant content == AttachFigures(sections, current, images)
    {
      assert rels[..j + 1] == rels[..j] + [rels[j]];
      ImageBlobsSnoc(rels[..j], rels[j]);
      if IsImage(rels[j]) {
        DecodeAllSnoc(ImageBlobs(rels[..j]), rels[j].blob, decode);
        match decode(rels[j].blob)
        case None =>
          DecodeFailsAt(rels, j, decode);
          return Failure(DecodeError);
        case Some(image) =>
          AttachFiguresSnoc(sections, current, images, image);
          if Truthy(current) {
            var h := current.value;
            content := content[h := content[h].(figures := content[h].figures + [image])];
          }
          images := images + [image];
      } else {
        assert ImageBlobs(rels[..j + 1]) == ImageBlobs(rels[..j]);
      }
      j := j + 1;
    }
    assert rels[..j] == rels;
    return Success(content);
  }

  /**
   * The table pass of `load_document`: build every table's grid and, when
   * `current` is truthy, append it to that header's tables, in table order.
   */
  method AddTables<I>(withFigures: ContentTree<I>, current: Option<string>, tables: seq<Table>)
    returns (content: ContentTree<I>)
    requires Truthy(current) ==> current.value in withFigures
    ensures content == AttachTables(withFigures, current, Grids(tables))
  {
    content := withFigures;
    assert Truthy(current) ==> withFigures[current.value].tables + [] == withFigures[current.value].tables;
    var k := 0;
    while k < |tables|
      invariant 0 <= k <= |tables|
      invariant content == AttachTables(withFigures, current, Grids(tables[..k]))
    {
      var grid := BuildGrid(tables[k]);
      assert Grids(tables[..k + 1]) == Grids(tables[..k]) + [grid];
      AttachTablesSnoc(withFigures, current, Grids(tables[..k]), grid);
      if Truthy(current) {
        var h := current.value;
        content := content[h := content[h].(tables := content[h].tables + [grid])];
      }
      k := k + 1;
    }
    assert tables[..k] == tables;
  }

  /** `load_document` on an already parsed document. */
  method LoadDocument<I>(doc: Document, decode: Blob -> Option<I>) returns (r: Result<ContentTree<I>, ExtractError>)
    ensures r == Extract(doc, decode)
  {
    var sections, current := GroupParagraphs<I>(doc.paragraphs);
    var withFigures := AddFigures(sections, current, doc.rels, decode);
    if withFigures.Failure? {
      return Failure(withFigures.error);
    }
    var content := AddTables(withFigures.value, current, doc.tables);
    return Success(content);
  }
}
