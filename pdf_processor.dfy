/** `PDFProcessor` of src/pdf_processor.py: runs the dimension extractor and
    the code detector over every text token of every page and collects one
    record per page.

    The PDF libraries are abstracted away: a pdfplumber page is its list of
    words with their coordinates, a PyMuPDF page is its block / line / span
    tree, and a document is the list of its pages, each of which either
    loads or raises. */
module PdfProcessor {
  import opened Wrappers
  import opened DimensionParser
  import opened CodeDetector

  /** A piece of page text with its bounding box. */
  datatype Token = Token(text: string, bbox: BBox)

  /** A pdfplumber word: its text and its four coordinates. */
  datatype PlumberWord = PlumberWord(text: string, x0: real, top: real, x1: real, bottom: real)

  /** PyMuPDF's text dictionary: blocks hold lines, lines hold spans. A block
      without a "lines" entry (an image block) is an `OtherBlock`. */
  datatype Span = Span(text: string, bbox: BBox)
  datatype Line = Line(spans: seq<Span>)
  datatype Block = TextBlock(lines: seq<Line>) | OtherBlock

  /** One entry of `results["pages"]`. */
  datatype PageRecord = PageRecord(page: nat, dimensions: seq<Dimension>, codes: seq<string>)

  /** A page as the document yields it: loaded, or raising when read. */
  datatype PageSource<P> = Loaded(content: P) | Failing

  // ---------------------------------------------------------------------------
  // What a page is worth
  // ---------------------------------------------------------------------------

  /** What `extract_dimensions_from_text` returns for a token. */
  function TokenDimensions(t: Token): seq<Dimension> {
    DimensionsOf(t.text, Scan(t.text, 0), t.bbox)
  }

  /** What `detect_codes` returns for a token. */
  function TokenCodes(t: Token): seq<string> {
    DetectCodes(t.text)
  }

  /** The results of `f` on the tokens, token after token. */
  function Collect<T>(ts: seq<Token>, f: Token -> seq<T>): seq<T> {
    if ts == [] then [] else Collect(ts[..|ts| - 1], f) + f(ts[|ts| - 1])
  }

  /** The dimensions of the tokens, token after token. */
  function Dimensions(ts: seq<Token>): seq<Dimension> {
    Collect(ts, TokenDimensions)
  }

  /** The codes of the tokens, token after token, before deduplication. */
  function Codes(ts: seq<Token>): seq<string> {
    Collect(ts, TokenCodes)
  }

  /** The record of page `page` whose tokens are `ts`. */
  function PageOf(page: nat, ts: seq<Token>): PageRecord {
    PageRecord(page, Dimensions(ts), Dedup(Codes(ts)))
  }

  /** pdfplumber's box is `[x0, top, x1, bottom]`. */
  function WordToken(w: PlumberWord): Token {
    Token(w.text, BBox(w.x0, w.top, w.x1, w.bottom))
  }

  function WordTokens(ws: seq<PlumberWord>): (ts: seq<Token>)
    ensures |ts| == |ws|
    ensures forall k :: 0 <= k < |ws| ==> ts[k] == WordToken(ws[k])
  {
    if ws == [] then [] else WordTokens(ws[..|ws| - 1]) + [WordToken(ws[|ws| - 1])]
  }

  function SpanTokens(ss: seq<Span>): (ts: seq<Token>)
    ensures |ts| == |ss|
    ensures forall k :: 0 <= k < |ss| ==> ts[k] == Token(ss[k].text, ss[k].bbox)
  {
    if ss == [] then [] else SpanTokens(ss[..|ss| - 1]) + [Token(ss[|ss| - 1].text, ss[|ss| - 1].bbox)]
  }

  /** The spans of the lines, line after line. */
  function LineTokens(ls: seq<Line>): seq<Token> {
    if ls == [] then [] else LineTokens(ls[..|ls| - 1]) + SpanTokens(ls[|ls| - 1].spans)
  }

  function BlockContent(b: Block): seq<Token> {
    match b
    case TextBlock(lines) => LineTokens(lines)
    case OtherBlock => []
  }

  /** The spans of the blocks in block, line, span order. */
  function BlockTokens(bs: seq<Block>): seq<Token> {
    if bs == [] then [] else BlockTokens(bs[..|bs| - 1]) + BlockContent(bs[|bs| - 1])
  }

  /** The pages a document yields before the first one that fails. */
  function LoadedPages<P>(srcs: seq<PageSource<P>>): (r: seq<P>)
    ensures |r| <= |srcs|
    ensures forall k :: 0 <= k < |r| ==> srcs[k] == Loaded(r[k])
    ensures |r| < |srcs| ==> srcs[|r|].Failing?
  {
    if srcs == [] || srcs[0].Failing? then []
    else [srcs[0].content] + LoadedPages(srcs[1..])
  }

  // ---------------------------------------------------------------------------
  // The loops
  // ---------------------------------------------------------------------------

  /** The body shared by both page loops: extend the dimensions and the codes
      with those of one token. */
  method AddToken(t: Token, ghost seen: seq<Token>, dimensions: seq<Dimension>, allCodes: seq<string>)
    returns (dimensions': seq<Dimension>, allCodes': seq<string>)
    requires dimensions == Dimensions(seen) && allCodes == Codes(seen)
    ensures dimensions' == Dimensions(seen + [t]) && allCodes' == Codes(seen + [t])
  {
    var dims := ExtractDimensionsFromText(t.text, t.bbox);
    dimensions' := dimensions + dims;
    var codes := DetectCodes(t.text);
    allCodes' := allCodes + codes;
    CollectSnoc(seen, t, TokenDimensions);
    CollectSnoc(seen, t, TokenCodes);
  }

  lemma WordTokensStep(words: seq<PlumberWord>, k: nat)
    requires k < |words|
    ensures WordTokens(words[..k + 1]) == WordTokens(words[..k]) + [WordToken(words[k])]
  {
  }

  lemma SpanTokensStep(spans: seq<Span>, k: nat)
    requires k < |spans|
    ensures SpanTokens(spans[..k + 1]) == SpanTokens(spans[..k]) + [Token(spans[k].text, spans[k].bbox)]
  {
  }

  lemma LineTokensStep(lines: seq<Line>, k: nat)
    requires k < |lines|
    ensures LineTokens(lines[..k + 1]) == LineTokens(lines[..k]) + SpanTokens(lines[k].spans)
  {
    assert lines[..k + 1][..k] == lines[..k];
  }

  lemma BlockTokensStep(blocks: seq<Block>, k: nat)
    requires k < |blocks|
    ensures BlockTokens(blocks[..k + 1]) == BlockTokens(blocks[..k]) + BlockContent(blocks[k])
  {
    assert blocks[..k + 1][..k] == blocks[..k];
  }

  /** `process_page_plumber` */
  method ProcessPagePlumber(words: seq<PlumberWord>, pageNum: nat) returns (rec: PageRecord)
    ensures rec == PageOf(pageNum, WordTokens(words))
  {
    var dimensions: seq<Dimension> := [];
    var allCodes: seq<string> := [];
    ghost var seen: seq<Token> := [];
    for k := 0 to |words|
      invariant seen == WordTokens(words[..k])
      invariant dimensions == Dimensions(seen) && allCodes == Codes(seen)
    {
      var w := words[k];
      var t := Token(w.text, BBox(w.x0, w.top, w.x1, w.bottom));
      dimensions, allCodes := AddToken(t, seen, dimensions, allCodes);
      WordTokensStep(words, k);
      seen := seen + [t];
    }
    assert words[..|words|] == words;
    rec := PageRecord(pageNum, dimensions, Dedup(allCodes));
  }

  /** `process_page_pymupdf` */
  method ProcessPagePyMuPDF(blocks: seq<Block>, pageNum: nat) returns (rec: PageRecord)
    ensures rec == PageOf(pageNum, BlockTokens(blocks))
  {
    var dimensions: seq<Dimension> := [];
    var allCodes: seq<string> := [];
    for b := 0 to |blocks|
      invariant dimensions == Dimensions(BlockTokens(blocks[..b]))
      invariant allCodes == Codes(BlockTokens(blocks[..b]))
    {
      BlockTokensStep(blocks, b);
      if blocks[b].TextBlock? {
        dimensions, allCodes := AddLines(blocks[b].lines, BlockTokens(blocks[..b]), dimensions, allCodes);
      } else {
        assert BlockTokens(blocks[..b]) + [] == BlockTokens(blocks[..b]);
      }
    }
    assert blocks[..|blocks|] == blocks;
    rec := PageRecord(pageNum, dimensions, Dedup(allCodes));
  }

  /** The loop over the lines of a text block. */
  method AddLines(lines: seq<Line>, ghost seen: seq<Token>, dimensions: seq<Dimension>, allCodes: seq<string>)
    returns (dimensions': seq<Dimension>, allCodes': seq<string>)
    requires dimensions == Dimensions(seen) && allCodes == Codes(seen)
    ensures dimensions' == Dimensions(seen + LineTokens(lines)) && allCodes' == Codes(seen + LineTokens(lines))
  {
    dimensions', allCodes' := dimensions, allCodes;
    ghost var acc := seen;
    for l := 0 to |lines|
      invariant acc == seen + LineTokens(lines[..l])
      invariant dimensions' == Dimensions(acc) && allCodes' == Codes(acc)
    {
      dimensions', allCodes' := AddSpans(lines[l].spans, acc, dimensions', allCodes');
      LineTokensStep(lines, l);
      AppendAssoc(seen, LineTokens(lines[..l]), SpanTokens(lines[l].spans));
      acc := acc + SpanTokens(lines[l].spans);
    }
    assert lines[..|lines|] == lines;
  }

  /** The loop over the spans of a line. */
  method AddSpans(spans: seq<Span>, ghost seen: seq<Token>, dimensions: seq<Dimension>, allCodes: seq<string>)
    returns (dimensions': seq<Dimension>, allCodes': seq<string>)
    requires dimensions == Dimensions(seen) && allCodes == Codes(seen)
    ensures dimensions' == Dimensions(seen + SpanTokens(spans)) && allCodes' == Codes(seen + SpanTokens(spans))
  {
    dimensions', allCodes' := dimensions, allCodes;
    ghost var acc := seen;
    for s := 0 to |spans|
      invariant acc == seen + SpanTokens(spans[..s])
      invariant dimensions' == Dimensions(acc) && allCodes' == Codes(acc)
    {
      var t := Token(spans[s].text, spans[s].bbox);
      dimensions', allCodes' := AddToken(t, acc, dimensions', allCodes');
      SpanTokensStep(spans, s);
      AppendAssoc(seen, SpanTokens(spans[..s]), [t]);
      acc := acc + [t];
    }
    assert spans[..|spans|] == spans;
  }

  /** The records a document yields: one per page up to the first page that
      fails, numbered from 1; `page` turns a page number and a page into its
      record. */
  function Records<P>(srcs: seq<PageSource<P>>, page: (nat, P) -> PageRecord): seq<PageRecord> {
    var loaded := LoadedPages(srcs);
    seq(|loaded|, k requires 0 <= k < |loaded| => page(k + 1, loaded[k]))
  }

  /** The record of a pdfplumber page. */
  function PlumberPage(pageNum: nat, words: seq<PlumberWord>): PageRecord {
    PageOf(pageNum, WordTokens(words))
  }

  /** The record of a PyMuPDF page. */
  function PyMuPDFPage(pageNum: nat, blocks: seq<Block>): PageRecord {
    PageOf(pageNum, BlockTokens(blocks))
  }

  /** The records are those of the longest run of loaded pages at the start
      of the document, numbered from 1. */
  lemma RecordsSpec<P>(srcs: seq<PageSource<P>>, page: (nat, P) -> PageRecord)
    ensures |Records(srcs, page)| <= |srcs|
    ensures forall k :: 0 <= k < |Records(srcs, page)| ==>
              srcs[k].Loaded? && Records(srcs, page)[k] == page(k + 1, srcs[k].content)
    ensures |Records(srcs, page)| < |srcs| ==> srcs[|Records(srcs, page)|].Failing?
  {
  }

  /** Reading one more loaded page appends its record, numbered after the
      pages before it. */
  lemma RecordsStep<P>(srcs: seq<PageSource<P>>, k: nat, page: (nat, P) -> PageRecord, rec: PageRecord)
    requires k < |srcs| && srcs[k].Loaded?
    requires forall i :: 0 <= i < k ==> srcs[i].Loaded?
    requires rec == page(k + 1, srcs[k].content)
    ensures Records(srcs[..k + 1], page) == Records(srcs[..k], page) + [rec]
  {
    var before := LoadedPages(srcs[..k]);
    var after := LoadedPages(srcs[..k + 1]);
    assert |before| == k && |after| == k + 1;
    var r0 := Records(srcs[..k], page);
    var r1 := Records(srcs[..k + 1], page);
    forall i | 0 <= i <= k ensures r1[i] == (r0 + [rec])[i] {
      assert srcs[..k + 1][i] == srcs[i];
      if i < k {
        assert srcs[..k][i] == srcs[i];
      }
    }
  }

  /** Once the reading stops, at the end of the document or at a page that
      fails, the records read are all the document's records. */
  lemma RecordsStop<P>(srcs: seq<PageSource<P>>, k: nat, page: (nat, P) -> PageRecord)
    requires k <= |srcs| && (k == |srcs| || srcs[k].Failing?)
    requires forall i :: 0 <= i < k ==> srcs[i].Loaded?
    ensures Records(srcs[..k], page) == Records(srcs, page)
  {
    var before := LoadedPages(srcs[..k]);
    var all := LoadedPages(srcs);
    assert |before| == k;
    assert |all| == k;
    forall i | 0 <= i < k ensures all[i] == before[i] {
      assert srcs[..k][i] == srcs[i];
    }
  }

  /** Nothing after the first page that fails is read. */
  lemma {:induction false} LoadedPagesFailing<P>(a: seq<PageSource<P>>, b: seq<PageSource<P>>)
    ensures LoadedPages(a + [Failing] + b) == LoadedPages(a)
  {
    if a == [] {
      assert (a + [Failing] + b)[0] == Failing;
    } else {
      assert (a + [Failing] + b)[0] == a[0];
      assert (a + [Failing] + b)[1..] == a[1..] + [Failing] + b;
      LoadedPagesFailing(a[1..], b);
    }
  }

  lemma RecordsFailing<P>(a: seq<PageSource<P>>, b: seq<PageSource<P>>, page: (nat, P) -> PageRecord)
    ensures Records(a + [Failing] + b, page) == Records(a, page)
  {
    LoadedPagesFailing(a, b);
  }

  /** `extract_with_pdfplumber`: a document that cannot be opened is `None`;
      a page that raises ends the loop, and the pages read so far are
      returned. Pages are numbered from 1. */
  method ExtractWithPdfplumber(doc: Option<seq<PageSource<seq<PlumberWord>>>>) returns (pages: seq<PageRecord>)
    ensures pages == if doc.None? then [] else Records(doc.value, PlumberPage)
  {
    pages := [];
    if doc.None? {
      return;
    }
    var srcs := doc.value;
    var k := 0;
    while k < |srcs| && srcs[k].Loaded?
      invariant k <= |srcs|
      invariant forall i :: 0 <= i < k ==> srcs[i].Loaded?
      invariant pages == Records(srcs[..k], PlumberPage)
    {
      var rec := ProcessPagePlumber(srcs[k].content, k + 1);
      assert rec == PlumberPage(k + 1, srcs[k].content);
      RecordsStep(srcs, k, PlumberPage, rec);
      pages := pages + [rec];
      k := k + 1;
    }
    RecordsStop(srcs, k, PlumberPage);
  }

  /** `extract_with_pymupdf`, with the same failure behaviour. */
  method ExtractWithPymupdf(doc: Option<seq<PageSource<seq<Block>>>>) returns (pages: seq<PageRecord>)
    ensures pages == if doc.None? then [] else Records(doc.value, PyMuPDFPage)
  {
    pages := [];
    if doc.None? {
      return;
    }
    var srcs := doc.value;
    var k := 0;
    while k < |srcs| && srcs[k].Loaded?
      invariant k <= |srcs|
      invariant forall i :: 0 <= i < k ==> srcs[i].Loaded?
      invariant pages == Records(srcs[..k], PyMuPDFPage)
    {
      var rec := ProcessPagePyMuPDF(srcs[k].content, k + 1);
      assert rec == PyMuPDFPage(k + 1, srcs[k].content);
      RecordsStep(srcs, k, PyMuPDFPage, rec);
      pages := pages + [rec];
      k := k + 1;
    }
    RecordsStop(srcs, k, PyMuPDFPage);
  }

  // ---------------------------------------------------------------------------
  // Properties of a page record
  // ---------------------------------------------------------------------------

  lemma CollectSnoc<T>(ts: seq<Token>, t: Token, f: Token -> seq<T>)
    ensures Collect(ts + [t], f) == Collect(ts, f) + f(t)
  {
    assert (ts + [t])[..|ts|] == ts;
  }

  /** Collecting over two runs of tokens is collecting over the first run
      then over the second. */
  lemma {:induction false} CollectAppend<T>(a: seq<Token>, b: seq<Token>, f: Token -> seq<T>)
    ensures Collect(a + b, f) == Collect(a, f) + Collect(b, f)
    decreases |b|
  {
    if b != [] {
      var b' := b[..|b| - 1];
      assert (a + b)[..|a + b| - 1] == a + b';
      assert (a + b)[|a + b| - 1] == b[|b| - 1];
      CollectAppend(a, b', f);
    } else {
      assert a + b == a;
    }
  }

  /** Everything collected comes from one of the tokens. */
  lemma {:induction false} CollectSound<T>(ts: seq<Token>, f: Token -> seq<T>)
    ensures forall x :: x in Collect(ts, f) ==> exists k :: 0 <= k < |ts| && x in f(ts[k])
  {
    if ts != [] {
      var ts' := ts[..|ts| - 1];
      CollectSound(ts', f);
      forall x | x in Collect(ts, f) ensures exists k :: 0 <= k < |ts| && x in f(ts[k]) {
        if x in Collect(ts', f) {
          var k :| 0 <= k < |ts'| && x in f(ts'[k]);
          assert ts[k] == ts'[k];
        } else {
          assert x in f(ts[|ts| - 1]);
        }
      }
    }
  }

  /** Everything any token yields is collected. */
  lemma {:induction false} CollectComplete<T>(ts: seq<Token>, f: Token -> seq<T>)
    ensures forall k, x :: 0 <= k < |ts| && x in f(ts[k]) ==> x in Collect(ts, f)
  {
    if ts != [] {
      var ts' := ts[..|ts| - 1];
      CollectComplete(ts', f);
      forall k, x | 0 <= k < |ts| && x in f(ts[k]) ensures x in Collect(ts, f) {
        if k < |ts| - 1 {
          assert ts'[k] == ts[k];
        }
      }
    }
  }

  /** The dimensions of a page are those of its tokens, each carrying the
      box of the token it was read from. */
  lemma PageDimensions(page: nat, ts: seq<Token>)
    ensures forall d :: d in PageOf(page, ts).dimensions <==>
              exists k :: 0 <= k < |ts| && d in TokenDimensions(ts[k])
    ensures forall d :: d in PageOf(page, ts).dimensions ==>
              exists k :: 0 <= k < |ts| && d.bbox == ts[k].bbox
  {
    CollectSound(ts, TokenDimensions);
    CollectComplete(ts, TokenDimensions);
    forall d | d in PageOf(page, ts).dimensions ensures exists k :: 0 <= k < |ts| && d.bbox == ts[k].bbox {
      var k :| 0 <= k < |ts| && d in TokenDimensions(ts[k]);
      var i :| 0 <= i < |TokenDimensions(ts[k])| && TokenDimensions(ts[k])[i] == d;
      assert Boxed(TokenDimensions(ts[k]), ts[k].bbox);
    }
  }

  /** A page's codes have no duplicates and are exactly the codes of its
      tokens: the whole words of some token that satisfy the code grammar. */
  lemma PageCodes(page: nat, ts: seq<Token>)
    ensures NoDuplicates(PageOf(page, ts).codes)
    ensures forall c :: c in PageOf(page, ts).codes <==> exists k :: 0 <= k < |ts| && c in CodeSet(ts[k].text)
  {
    CollectSound(ts, TokenCodes);
    CollectComplete(ts, TokenCodes);
    forall k | 0 <= k < |ts| {
      DetectCodesSpec(ts[k].text);
    }
  }

  /** A page without tokens has no dimensions and no codes. */
  lemma EmptyPage(page: nat)
    ensures PageOf(page, []) == PageRecord(page, [], [])
  {
  }

  /** Each dimension of a pdfplumber page carries the `[x0, top, x1, bottom]`
      box of a word of that page. */
  lemma PlumberBoxes(page: nat, words: seq<PlumberWord>)
    ensures forall d :: d in PageOf(page, WordTokens(words)).dimensions ==>
              exists k :: 0 <= k < |words| && d.bbox == BBox(words[k].x0, words[k].top, words[k].x1, words[k].bottom)
  {
    PageDimensions(page, WordTokens(words));
  }

  lemma {:induction false} BlockTokensAppend(a: seq<Block>, b: seq<Block>)
    ensures BlockTokens(a + b) == BlockTokens(a) + BlockTokens(b)
    decreases |b|
  {
    if b != [] {
      var b' := b[..|b| - 1];
      assert (a + b)[..|a + b| - 1] == a + b';
      assert (a + b)[|a + b| - 1] == b[|b| - 1];
      BlockTokensAppend(a, b');
    } else {
      assert a + b == a;
    }
  }

  /** A block without lines contributes nothing to a PyMuPDF page. */
  lemma OtherBlockIgnored(a: seq<Block>, b: seq<Block>)
    ensures BlockTokens(a + [OtherBlock] + b) == BlockTokens(a + b)
  {
    BlockTokensAppend(a + [OtherBlock], b);
    BlockTokensAppend(a, [OtherBlock]);
    OtherBlockEmpty();
    BlockTokensAppend(a, b);
  }

  lemma OtherBlockEmpty()
    ensures BlockTokens([OtherBlock]) == []
  {
    assert [OtherBlock][..0] == [];
  }
}
