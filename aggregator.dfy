/**
 * The cross-document alignment inside `main`, without its Streamlit calls:
 * collect every heading of every document, visit them in sorted order, and
 * give each one record per document, in document order.
 */
module Aggregator {
  import opened Wrappers
  import opened Text
  import opened Docx
  import opened Sections
  import opened Extractor

  /** One line of the aligned view: a header and one record per document. */
  datatype Row<I> = Row(header: string, records: seq<Record<I>>)

  /** The strings of `s` strictly increase in Python's string order. */
  predicate StrictlySorted(s: seq<string>)
  {
    forall i, j :: 0 <= i < j < |s| ==> Less(s[i], s[j])
  }

  /** Some document has `k` among its keys. */
  ghost predicate OwnedBySome<I>(contents: seq<ContentTree<I>>, k: string)
  {
    exists d :: 0 <= d < |contents| && k in contents[d]
  }

  /**
   * `content.get(header, {}).get(field, [])` for every field at once: the
   * document's own record, or empty lists when it lacks the header.
   */
  function Lookup<I>(content: ContentTree<I>, header: string): (r: Record<I>)
    ensures header in content ==> r == content[header]
    ensures header !in content ==> r.paragraphs == [] && r.tables == [] && r.figures == []
  {
    if header in content then content[header] else EmptyRecord()
  }

  /** The headers of the view's rows, in row order. */
  function Headers<I>(view: seq<Row<I>>): seq<string>
  {
    seq(|view|, i requires 0 <= i < |view| => view[i].header)
  }

  /**
   * `view` aligns `contents`: one row per header of any document, in strictly
   * increasing order; each row holds, at position d, document d's record for
   * the header, or an empty record when document d lacks it; and some document
   * owns each row's header.
   */
  ghost predicate AlignedView<I>(contents: seq<ContentTree<I>>, view: seq<Row<I>>)
  {
    && StrictlySorted(Headers(view))
    && (forall k :: k in Headers(view) <==> OwnedBySome(contents, k))
    && (forall i :: 0 <= i < |view| ==> |view[i].records| == |contents|)
    && (forall i, d :: 0 <= i < |view| && 0 <= d < |contents| ==>
          view[i].records[d] == if view[i].header in contents[d] then contents[d][view[i].header] else EmptyRecord())
    && (forall i :: 0 <= i < |view| ==>
          exists d :: 0 <= d < |contents| && view[i].header in contents[d] && view[i].records[d] == contents[d][view[i].header])
  }

  /** `all_headers`: the union of the key sets of all documents. */
  method AllHeaders<I>(contents: seq<ContentTree<I>>) returns (headers: set<string>)
    ensures forall k :: k in headers <==> OwnedBySome(contents, k)
  {
    headers := {};
    for i := 0 to |contents|
      invariant forall k :: k in headers <==> OwnedBySome(contents[..i], k)
    {
      assert forall d :: 0 <= d < i ==> contents[..i + 1][d] == contents[..i][d];
      assert contents[..i + 1][i] == contents[i];
      headers := headers + contents[i].Keys;
    }
    assert contents[..|contents|] == contents;
  }

  /** `sorted(headers)`: every header once, in increasing order. */
  method SortHeaders(headers: set<string>) returns (sorted: seq<string>)
    ensures StrictlySorted(sorted)
    ensures forall k :: k in sorted <==> k in headers
  {
    sorted := [];
    var rest := headers;
    while rest != {}
      invariant rest <= headers
      invariant StrictlySorted(sorted)
      invariant forall k :: k in sorted ==> k in headers && k !in rest
      invariant forall k :: k in headers ==> k in sorted || k in rest
      invariant forall i, k :: 0 <= i < |sorted| && k in rest ==> Less(sorted[i], k)
      decreases rest
    {
      MinimumExists(rest);
      var m :| m in rest && forall k :: k in rest && k != m ==> Less(m, k);
      sorted := sorted + [m];
      rest := rest - {m};
    }
  }

  /** The aligned view of `contents`, built header by header and document by document. */
  method Aggregate<I>(contents: seq<ContentTree<I>>) returns (view: seq<Row<I>>)
    ensures AlignedView(contents, view)
  {
    var headers := AllHeaders(contents);
    var sorted := SortHeaders(headers);
    view := [];
    for n := 0 to |sorted|
      invariant |view| == n
      invariant forall i :: 0 <= i < n ==> view[i].header == sorted[i]
      invariant forall i :: 0 <= i < n ==> |view[i].records| == |contents|
      invariant forall i, d :: 0 <= i < n && 0 <= d < |contents| ==>
        view[i].records[d] == Lookup(contents[d], view[i].header)
    {
      var header := sorted[n];
      var records: seq<Record<I>> := [];
      for d := 0 to |contents|
        invariant |records| == d
        invariant forall e :: 0 <= e < d ==> records[e] == Lookup(contents[e], header)
      {
        records := records + [Lookup(contents[d], header)];
      }
      view := view + [Row(header, records)];
    }
    assert Headers(view) == sorted;
    forall i | 0 <= i < |view|
      ensures exists d :: 0 <= d < |contents| && view[i].header in contents[d] && view[i].records[d] == contents[d][view[i].header]
    {
      assert view[i].header in headers;
      var d :| 0 <= d < |contents| && view[i].header in contents[d];
      assert view[i].records[d] == contents[d][view[i].header];
    }
  }

  /**
   * `[load_document(f) for f in uploaded_files]`: every document is
   * extracted in order, and the first one that fails aborts the comparison.
   */
  method LoadAll<I>(docs: seq<Document>, decode: Blob -> Option<I>) returns (r: Result<seq<ContentTree<I>>, ExtractError>)
    ensures r.Failure? <==> exists d :: 0 <= d < |docs| && Extract(docs[d], decode).Failure?
    ensures r.Success? ==>
      |r.value| == |docs| && forall d :: 0 <= d < |docs| ==> Extract(docs[d], decode) == Success(r.value[d])
  {
    var contents: seq<ContentTree<I>> := [];
    for d := 0 to |docs|
      invariant |contents| == d
      invariant forall e :: 0 <= e < d ==> Extract(docs[e], decode) == Success(contents[e])
    {
      var content := LoadDocument(docs[d], decode);
      if content.Failure? {
        return Failure(content.error);
      }
      contents := contents + [content.value];
    }
    return Success(contents);
  }

  /** The trees of the documents that extract, an empty tree for those that do not. */
  function Trees<I>(docs: seq<Document>, decode: Blob -> Option<I>): seq<ContentTree<I>>
  {
    seq(|docs|, d requires 0 <= d < |docs| => match Extract(docs[d], decode) case Success(t) => t case Failure(_) => map[])
  }

  /**
   * The comparison in `main`: load every document, then align their trees;
   * it fails exactly when some document fails to extract.
   */
  method Compare<I>(docs: seq<Document>, decode: Blob -> Option<I>) returns (r: Result<seq<Row<I>>, ExtractError>)
    ensures r.Failure? <==> exists d :: 0 <= d < |docs| && Extract(docs[d], decode).Failure?
    ensures r.Success? ==> AlignedView(Trees(docs, decode), r.value)
  {
    var contents := LoadAll(docs, decode);
    if contents.Failure? {
      return Failure(contents.error);
    }
    assert contents.value == Trees(docs, decode);
    var view := Aggregate(contents.value);
    return Success(view);
  }
}
