/** The document harvest of DataScraping.py: file-name sanitising, candidate
    extraction with the language deny-list, download planning with per-item
    failure, and the pagination loop that accumulates the manifest.

    The browser is given as what it shows: the `ng-href` values of the links on
    each page scraped, in page order, and the answer of the "next page" click
    after each page. The network and the file system are given as an oracle
    saying whether the retrieval and write of a request completed. */
module Harvest {
  import opened Text
  import opened Seqs

  /** A discovered link: the document name and the href it came from. */
  datatype Document = Document(name: string, path: string)

  /** A download about to be made: the target file name and the absolute URL. */
  datatype Request = Request(fileName: string, url: string)

  /** A download that was attempted, and whether it completed. */
  datatype Attempt = Attempt(request: Request, saved: bool)

  const BaseUrl: string := "https://examinationboard.aku.edu/"

  /** Substrings that mark a non-English document or an image. */
  const DenyList: seq<string> :=
    ["urdu", "islamiyat", "islamic", "islam", "arab", "french",
     "spanish", "sindh", "sindhi", "jpg", "jpeg", "png"]

  // ---------------------------------------------------------------------
  // sanitize_filename

  /** The characters a file name may not hold. */
  predicate IsInvalidChar(c: char) {
    c == '/' || c == '\\' || c == ':'
  }

  /** The three `replace` calls, before the strip. */
  function ReplaceInvalid(filename: string): string {
    Replace(Replace(Replace(filename, '/', '_'), '\\', '_'), ':', '_')
  }

  /** Before the strip, sanitising keeps the length and changes exactly the
      invalid characters, each into an underscore. */
  lemma ReplaceInvalidSpec(filename: string)
    ensures var r := ReplaceInvalid(filename);
      && |r| == |filename|
      && forall i :: 0 <= i < |r| ==> r[i] == (if IsInvalidChar(filename[i]) then '_' else filename[i])
  {
    var r1 := Replace(filename, '/', '_');
    var r2 := Replace(r1, '\\', '_');
    ReplaceSpec(filename, '/', '_');
    ReplaceSpec(r1, '\\', '_');
    ReplaceSpec(r2, ':', '_');
  }

  /** `sanitize_filename`: invalid characters become underscores, then the
      result is stripped. */
  function SanitizeFilename(filename: string): string {
    Strip(ReplaceInvalid(filename))
  }

  /** A sanitised name holds no invalid character and neither starts nor ends
      with whitespace. */
  lemma SanitizeSpec(filename: string)
    ensures var r := SanitizeFilename(filename);
      && (forall c :: c in r ==> !IsInvalidChar(c))
      && (r == [] || (!IsSpace(r[0]) && !IsSpace(r[|r| - 1])))
  {
    ReplaceInvalidSpec(filename);
    StripSpec(ReplaceInvalid(filename));
  }

  /** Sanitising twice is sanitising once. */
  lemma SanitizeIdempotent(filename: string)
    ensures SanitizeFilename(SanitizeFilename(filename)) == SanitizeFilename(filename)
  {
    var r := SanitizeFilename(filename);
    SanitizeSpec(filename);
    ReplaceInvalidSpec(r);
    assert ReplaceInvalid(r) == r;
    StripUnchanged(r);
  }

  /** A name sanitises to the empty string exactly when it is all whitespace. */
  lemma SanitizeEmpty(filename: string)
    ensures SanitizeFilename(filename) == [] <==> forall i :: 0 <= i < |filename| ==> IsSpace(filename[i])
  {
    ReplaceInvalidSpec(filename);
    var t := ReplaceInvalid(filename);
    StripSpec(t);
    assert forall i :: 0 <= i < |t| ==> (IsSpace(t[i]) <==> IsSpace(filename[i]));
  }

  // ---------------------------------------------------------------------
  // fetch_documents

  /** `href.split("/")[-1]`: the text after the last slash. */
  function LastSegment(href: string): string {
    var parts := Split(href, '/');
    parts[|parts| - 1]
  }

  /** The last segment holds no slash, is a suffix of the href, and is
      preceded by a slash unless it is the whole href. */
  lemma LastSegmentSpec(href: string)
    ensures var name := LastSegment(href);
      && '/' !in name
      && |name| <= |href| && name == href[|href| - |name|..]
      && (|name| < |href| ==> href[|href| - |name| - 1] == '/')
  {
    SplitLast(href, '/');
  }

  /** The candidate a link yields: its last segment and the href verbatim. */
  function Candidate(href: string): Document {
    Document(LastSegment(href), href)
  }

  /** The lowercased name contains one of the deny-list substrings. */
  predicate IsDenied(name: string) {
    exists k | 0 <= k < |DenyList| :: Contains(Lower(name), DenyList[k])
  }

  predicate Retained(d: Document) {
    !IsDenied(d.name)
  }

  /** What fetch_documents returns for a page with the given links. */
  function DocumentsOn(hrefs: seq<string>): seq<Document> {
    Filter(Map(Candidate, hrefs), Retained)
  }

  /** The loop of fetch_documents over the links of the current page. */
  method FetchDocuments(hrefs: seq<string>) returns (documents: seq<Document>)
    ensures documents == DocumentsOn(hrefs)
  {
    documents := [];
    var i := 0;
    while i < |hrefs|
      invariant 0 <= i <= |hrefs|
      invariant documents == Filter(Map(Candidate, hrefs[..i]), Retained)
    {
      var href := hrefs[i];
      var name := LastSegment(href);
      var path := href;
      TakeSnoc(hrefs, i);
      MapSnoc(Candidate, hrefs[..i], href);
      FilterSnoc(Map(Candidate, hrefs[..i]), Candidate(href), Retained);
      if !IsDenied(name) {
        documents := documents + [Document(name, path)];
      }
      i := i + 1;
    }
    assert hrefs[..i] == hrefs;
  }

  /** Every document of a page names the last segment of its href, holds no
      slash, comes from a link of the page and is not denied; a link's
      candidate is returned exactly when it is not denied. */
  lemma DocumentsOnSpec(hrefs: seq<string>)
    ensures |DocumentsOn(hrefs)| <= |hrefs|
    ensures forall d :: d in DocumentsOn(hrefs) ==>
      d.name == LastSegment(d.path) && '/' !in d.name && d.path in hrefs && !IsDenied(d.name)
    ensures forall j :: 0 <= j < |hrefs| ==>
      (Candidate(hrefs[j]) in DocumentsOn(hrefs) <==> !IsDenied(LastSegment(hrefs[j])))
  {
    var cs := Map(Candidate, hrefs);
    forall d | d in DocumentsOn(hrefs)
      ensures d.path in hrefs && '/' !in d.name
    {
      var j :| 0 <= j < |cs| && cs[j] == d;
      assert d.path == hrefs[j];
      LastSegmentSpec(d.path);
    }
    forall j | 0 <= j < |hrefs|
      ensures Candidate(hrefs[j]) in DocumentsOn(hrefs) <==> !IsDenied(LastSegment(hrefs[j]))
    {
      FilterMembership(cs, Retained, Candidate(hrefs[j]));
      assert cs[j] == Candidate(hrefs[j]);
    }
  }

  /** The documents of a page come in link order: the k-th document is the
      candidate of the k-th retained link, and a link is retained exactly when
      its name is not denied. */
  lemma DocumentsOnOrder(hrefs: seq<string>)
    ensures var docs, ix := DocumentsOn(hrefs), KeptIndices(Map(Candidate, hrefs), Retained);
      && |ix| == |docs|
      && (forall k :: 0 <= k < |ix| ==> ix[k] < |hrefs| && docs[k] == Candidate(hrefs[ix[k]]))
      && (forall k, l :: 0 <= k < l < |ix| ==> ix[k] < ix[l])
      && (forall j :: 0 <= j < |hrefs| ==> (j in ix <==> !IsDenied(LastSegment(hrefs[j]))))
  {
    FilterOrder(Map(Candidate, hrefs), Retained);
  }

  // ---------------------------------------------------------------------
  // download_documents

  /** A document is downloaded only when its sanitised name is not empty. */
  predicate HasFileName(d: Document) {
    SanitizeFilename(d.name) != []
  }

  function RequestFor(d: Document): Request {
    Request(SanitizeFilename(d.name), BaseUrl + d.path)
  }

  /** The downloads that documents call for, in order. */
  function Plan(docs: seq<Document>): seq<Request> {
    Map(RequestFor, Filter(docs, HasFileName))
  }

  /** What one iteration of download_documents does with one document:
      nothing when its sanitised name is empty, otherwise one attempt. */
  function DownloadOne(d: Document, fetchOk: Request -> bool): seq<Attempt> {
    if !HasFileName(d) then []
    else
      var request := RequestFor(d);
      [Attempt(request, fetchOk(request))]
  }

  function DownloadStep(fetchOk: Request -> bool): Document -> seq<Attempt> {
    d => DownloadOne(d, fetchOk)
  }

  /** The attempts download_documents makes over a list of documents. */
  function Downloads(docs: seq<Document>, fetchOk: Request -> bool): seq<Attempt> {
    ConcatMap(DownloadStep(fetchOk), docs)
  }

  /** The loop of download_documents: a failed download is recorded and the
      loop goes on with the next document. */
  method DownloadDocuments(documents: seq<Document>, fetchOk: Request -> bool)
    returns (log: seq<Attempt>)
    ensures log == Downloads(documents, fetchOk)
  {
    log := [];
    for i := 0 to |documents|
      invariant log == Downloads(documents[..i], fetchOk)
    {
      var documentName := SanitizeFilename(documents[i].name);
      TakeSnoc(documents, i);
      ConcatMapSnoc(DownloadStep(fetchOk), documents[..i], documents[i]);
      if documentName == [] {
        continue;
      }
      var fullUrl := BaseUrl + documents[i].path;
      var request := Request(documentName, fullUrl);
      var saved := fetchOk(request);
      log := log + [Attempt(request, saved)];
    }
    assert documents[..|documents|] == documents;
  }

  /** The attempt a document with a file name leads to. */
  function AttemptFor(fetchOk: Request -> bool): Document -> Attempt {
    d => Attempt(RequestFor(d), fetchOk(RequestFor(d)))
  }

  /** The attempts follow the plan one for one, whatever the outcomes: the
      k-th attempt makes the k-th planned request, so a failure never stops
      the downloads after it. */
  lemma DownloadsFollowPlan(docs: seq<Document>, fetchOk: Request -> bool)
    ensures var log, plan := Downloads(docs, fetchOk), Plan(docs);
      && |log| == |plan|
      && forall k :: 0 <= k < |log| ==> log[k] == Attempt(plan[k], fetchOk(plan[k]))
  {
    var step, attempt := DownloadStep(fetchOk), AttemptFor(fetchOk);
    forall d ensures step(d) == (if HasFileName(d) then [attempt(d)] else []) {
    }
    ConcatMapOfOptional(step, HasFileName, attempt, docs);
  }

  /** The plan: the k-th request is for the k-th document with a non-empty
      sanitised name, under that name and at the base URL followed by its
      path; a document is planned exactly when its sanitised name is not
      empty, so one that sanitises to nothing is never attempted. */
  lemma {:induction false} PlanSpec(docs: seq<Document>)
    ensures var plan, ix := Plan(docs), KeptIndices(docs, HasFileName);
      && |ix| == |plan|
      && (forall k :: 0 <= k < |ix| ==>
            ix[k] < |docs|
            && plan[k] == Request(SanitizeFilename(docs[ix[k]].name), BaseUrl + docs[ix[k]].path))
      && (forall k, l :: 0 <= k < l < |ix| ==> ix[k] < ix[l])
      && (forall j :: 0 <= j < |docs| ==> (j in ix <==> SanitizeFilename(docs[j].name) != []))
      && (forall k :: 0 <= k < |plan| ==> plan[k].fileName != [])
  {
    FilterOrder(docs, HasFileName);
  }

  // ---------------------------------------------------------------------
  // The pagination loop of __main__

  /** The index of the first `false`: the page after which the loop stops. */
  function FirstStop(advance: seq<bool>): (i: nat)
    requires exists j :: 0 <= j < |advance| && !advance[j]
    ensures i < |advance| && !advance[i]
    ensures forall k :: 0 <= k < i ==> advance[k]
  {
    if !advance[0] then 0 else 1 + FirstStop(advance[1..])
  }

  /** The first `false` is the one no `false` precedes. */
  lemma FirstStopAt(advance: seq<bool>, i: nat)
    requires i < |advance| && !advance[i]
    requires forall k :: 0 <= k < i ==> advance[k]
    ensures FirstStop(advance) == i
  {
  }

  /** While the clicks so far succeeded, a failing one is still ahead. */
  lemma StopAhead(advance: seq<bool>, i: nat)
    requires exists j :: 0 <= j < |advance| && !advance[j]
    requires i < |advance| && advance[i]
    requires forall k :: 0 <= k < i ==> advance[k]
    ensures i + 1 < |advance|
  {
  }

  /** `docs` after the given pages were scraped, in page order. */
  function Manifest(pages: seq<seq<string>>): seq<Document> {
    ConcatMap(DocumentsOn, pages)
  }

  /** The number of documents the pages yield, page by page. */
  function PageTotal(pages: seq<seq<string>>): nat {
    TotalLength(DocumentsOn, pages)
  }

  /** The manifest holds the sum of the per-page counts, and each entry is a
      retained candidate of some page whose name is the unsanitised last
      segment of its path. */
  lemma ManifestSpec(pages: seq<seq<string>>)
    ensures |Manifest(pages)| == PageTotal(pages)
    ensures forall d :: d in Manifest(pages) ==>
      d.name == LastSegment(d.path) && !IsDenied(d.name)
      && exists i :: 0 <= i < |pages| && d.path in pages[i]
  {
    ConcatMapLength(DocumentsOn, pages);
    forall d | d in Manifest(pages)
      ensures d.name == LastSegment(d.path) && !IsDenied(d.name)
      ensures exists i :: 0 <= i < |pages| && d.path in pages[i]
    {
      ConcatMapMembership(DocumentsOn, pages, d);
      var i :| 0 <= i < |pages| && d in DocumentsOn(pages[i]);
      DocumentsOnSpec(pages[i]);
    }
  }

  /** The manifest of a run is the manifests of its parts, one after the other. */
  lemma ManifestAppend(a: seq<seq<string>>, b: seq<seq<string>>)
    ensures Manifest(a + b) == Manifest(a) + Manifest(b)
  {
    ConcatMapAppend(DocumentsOn, a, b);
  }

  /** Scraping one more page extends the manifest by that page's documents,
      and the downloads by the downloads of those documents. */
  lemma ManifestStep(pages: seq<seq<string>>, n: nat, fetchOk: Request -> bool)
    requires n < |pages|
    ensures Manifest(pages[..n + 1]) == Manifest(pages[..n]) + DocumentsOn(pages[n])
    ensures Downloads(Manifest(pages[..n]) + DocumentsOn(pages[n]), fetchOk)
         == Downloads(Manifest(pages[..n]), fetchOk) + Downloads(DocumentsOn(pages[n]), fetchOk)
  {
    TakeSnoc(pages, n);
    ConcatMapSnoc(DocumentsOn, pages[..n], pages[n]);
    ConcatMapAppend(DownloadStep(fetchOk), Manifest(pages[..n]), DocumentsOn(pages[n]));
  }

  /** One pass of the loop body: scrape page n, extend the manifest with its
      documents and download them. */
  method ScrapePage(pages: seq<seq<string>>, n: nat, docs: seq<Document>, log: seq<Attempt>,
                    fetchOk: Request -> bool)
    returns (docs': seq<Document>, log': seq<Attempt>)
    requires n < |pages|
    requires docs == Manifest(pages[..n]) && log == Downloads(docs, fetchOk)
    ensures docs' == Manifest(pages[..n + 1])
    ensures log' == Downloads(docs', fetchOk)
  {
    var documents := FetchDocuments(pages[n]);
    ManifestStep(pages, n, fetchOk);
    docs' := docs + documents;
    var attempts := DownloadDocuments(documents, fetchOk);
    log' := log + attempts;
  }

  /** The `while True` loop of __main__: scrape the page, extend the
      manifest, download the page's documents, then stop at the first failed
      "next page" click. The run reads exactly the pages up to that click,
      the manifest is the concatenation of their documents (skipped and
      failed downloads included) and the downloads are those the whole
      manifest calls for. */
  method Harvest(pages: seq<seq<string>>, advance: seq<bool>, fetchOk: Request -> bool)
    returns (docs: seq<Document>, pageNum: nat, log: seq<Attempt>)
    requires |pages| == |advance|
    requires exists j :: 0 <= j < |advance| && !advance[j]
    ensures pageNum == FirstStop(advance) + 1
    ensures docs == Manifest(pages[..pageNum])
    ensures log == Downloads(docs, fetchOk)
  {
    docs := [];
    log := [];
    pageNum := 1;
    while true
      invariant 1 <= pageNum <= |advance|
      invariant forall k :: 0 <= k < pageNum - 1 ==> advance[k]
      invariant docs == Manifest(pages[..pageNum - 1])
      invariant log == Downloads(docs, fetchOk)
      decreases |advance| - pageNum
    {
      docs, log := ScrapePage(pages, pageNum - 1, docs, log, fetchOk);
      if !advance[pageNum - 1] {
        FirstStopAt(advance, pageNum - 1);
        break;
      }
      StopAhead(advance, pageNum - 1);
      pageNum := pageNum + 1;
    }
  }
}
