/** `process_pdf_signatures`: runs the signature finder over every page of a
    document, gathers statistics and the location of every signature line,
    stamps the signer's name just above each line when a name is given, and
    saves the stamped copy under a derived name. */
module Processor {
  import opened Wrappers
  import opened Text
  import opened Detector

  /** An RGB colour with components between 0 and 1. */
  datatype Color = Color(r: real, g: real, b: real)

  /** One entry of `SIGNATURE_STYLES`. */
  datatype Style = Style(font: string, size: nat, color: Color)

  /** `SIGNATURE_STYLES`. */
  const SignatureStyles: map<string, Style> := map[
    "cursive" := Style("Dancing Script", 24, Color(0.0, 0.0, 1.0)),
    "handwritten" := Style("Homemade Apple", 22, Color(0.0, 0.0, 0.7)),
    "artistic" := Style("Pacifico", 26, Color(0.2, 0.0, 0.8))
  ]

  /** `SIGNATURE_STYLES.get(name, SIGNATURE_STYLES['cursive'])`. */
  function StyleFor(name: string): (s: Style)
    ensures s in SignatureStyles.Values
  {
    if name in SignatureStyles then SignatureStyles[name] else SignatureStyles["cursive"]
  }

  /** How far above the anchor's top edge the name's baseline is placed
      (0.2 mm in points). */
  const StampLift: real := 0.5675

  /** Text inserted on a page: its baseline origin, the text and its style. */
  datatype Stamp = Stamp(x: real, y: real, text: string, font: string, size: nat, color: Color)

  /** A page as the model sees it: the engine's word tuples and the text
      inserted so far. */
  datatype Page = Page(entries: seq<Entry>, stamps: seq<Stamp>)

  /** An open document: its pages, the copies saved so far (path and pages),
      and whether it was closed. */
  class Document {
    var pages: seq<Page>
    var saves: seq<(string, seq<Page>)>
    var closed: bool

    /** `fitz.open(path)` on a file whose pages hold `contents`. */
    constructor Open(contents: seq<seq<Entry>>)
      ensures pages == Fresh(contents) && saves == [] && !closed
    {
      pages := Fresh(contents);
      saves := [];
      closed := false;
    }

    /** `page.insert_text(...)` on page `p`. */
    method InsertText(p: nat, s: Stamp)
      requires p < |pages| && !closed
      modifies this
      ensures pages == old(pages)[p := old(pages)[p].(stamps := old(pages)[p].stamps + [s])]
      ensures saves == old(saves) && closed == old(closed)
    {
      pages := pages[p := pages[p].(stamps := pages[p].stamps + [s])];
    }

    /** `doc.save(path)`; whether the file system accepts the write is
        `succeeds`. */
    method Save(path: string, succeeds: bool) returns (ok: bool)
      requires !closed
      modifies this
      ensures ok == succeeds
      ensures saves == old(saves) + (if ok then [(path, pages)] else [])
      ensures pages == old(pages) && closed == old(closed)
    {
      ok := succeeds;
      if ok {
        saves := saves + [(path, pages)];
      }
    }

    /** `doc.close()`. */
    method Close()
      requires !closed
      modifies this
      ensures closed && pages == old(pages) && saves == old(saves)
    {
      closed := true;
    }
  }

  /** The pages of a freshly opened document. */
  function Fresh(contents: seq<seq<Entry>>): (ps: seq<Page>)
    ensures |ps| == |contents|
  {
    seq(|contents|, p requires 0 <= p < |contents| => Page(contents[p], []))
  }

  /** One entry of `signature_locations`. Its `type` is always
      `"signature_line"` and is not represented. */
  datatype Location = Location(page: nat, rect: Rect, text: string, textBelow: string, hasDescription: bool)

  /** The `stats` dictionary. */
  datatype Stats = Stats(
    totalSignatureLines: nat,
    pagesWithSignatures: nat,
    pagesProcessed: nat,
    signatureLocations: seq<Location>,
    outputPath: string,
    signerName: Option<string>)

  datatype ProcessError = FileNotFound | SaveFailed

  /** `input_pdf_path.replace('.pdf', '_assinado.pdf')`. */
  function OutputPath(inputPath: string): string
  {
    ReplaceAll(inputPath, ".pdf", "_assinado.pdf")
  }

  /** Python truthiness of `signer_name`: present and not empty. */
  predicate Signs(signerName: Option<string>)
  {
    signerName.Some? && signerName.value != ""
  }

  /** The location recorded for region `area` of page `p`. */
  function LocationOf(p: nat, area: Region): Location
  {
    Location(p, area.rect, area.text, area.textBelow, area.hasDescription)
  }

  /** The locations of the regions of page `p`, in order. */
  function PageLocations(p: nat, areas: seq<Region>): (ls: seq<Location>)
    ensures |ls| == |areas|
  {
    seq(|areas|, k requires 0 <= k < |areas| => LocationOf(p, areas[k]))
  }

  /** The regions of every page. */
  function AllRegions(contents: seq<seq<Entry>>): (rs: seq<seq<Region>>)
    ensures |rs| == |contents|
  {
    seq(|contents|, p requires 0 <= p < |contents| => Detect(contents[p]))
  }

  /** The locations of pages `0 .. |rs| - 1`, page after page. */
  function Locations(rs: seq<seq<Region>>): seq<Location>
  {
    if rs == [] then [] else Locations(rs[..|rs| - 1]) + PageLocations(|rs| - 1, rs[|rs| - 1])
  }

  /** The number of regions over all pages. */
  function Total(rs: seq<seq<Region>>): nat
  {
    if rs == [] then 0 else Total(rs[..|rs| - 1]) + |rs[|rs| - 1]|
  }

  /** The number of pages with at least one region. */
  function PagesWith(rs: seq<seq<Region>>): nat
  {
    if rs == [] then 0 else PagesWith(rs[..|rs| - 1]) + (if rs[|rs| - 1] != [] then 1 else 0)
  }

  /** The statistics for a document whose pages hold `contents`. */
  function StatsFor(contents: seq<seq<Entry>>, inputPath: string, signerName: Option<string>): Stats
  {
    var rs := AllRegions(contents);
    Stats(Total(rs), PagesWith(rs), |contents|, Locations(rs), OutputPath(inputPath), signerName)
  }

  /** The name stamped just above region `area`. */
  function StampFor(area: Region, name: string, style: Style): Stamp
  {
    Stamp(area.rect.x0, area.rect.y0 - StampLift, name, style.font, style.size, style.color)
  }

  /** The stamps for the regions `areas`, in order. */
  function Stamps(areas: seq<Region>, name: string, style: Style): (ss: seq<Stamp>)
    ensures |ss| == |areas|
  {
    seq(|areas|, k requires 0 <= k < |areas| => StampFor(areas[k], name, style))
  }

  /** The stamps inserted for the regions `areas`: one per region when the
      signer's name is given, none otherwise. */
  function Added(areas: seq<Region>, signerName: Option<string>, style: Style): seq<Stamp>
  {
    if Signs(signerName) then Stamps(areas, signerName.value, style) else []
  }

  /** Page `entries` after processing. */
  function Processed(entries: seq<Entry>, signerName: Option<string>, style: Style): Page
  {
    Page(entries, Added(Detect(entries), signerName, style))
  }

  /** The pages after the first `n` were processed. */
  function ProcessedUpTo(contents: seq<seq<Entry>>, signerName: Option<string>, style: Style, n: nat): (ps: seq<Page>)
    ensures |ps| == |contents|
  {
    seq(|contents|, p requires 0 <= p < |contents| =>
      if p < n then Processed(contents[p], signerName, style) else Page(contents[p], []))
  }

  /** Processing page `p` turns the pages after `p` pages into the pages after
      `p + 1`. */
  lemma ProcessedStep(contents: seq<seq<Entry>>, signerName: Option<string>, style: Style, p: nat)
    requires p < |contents|
    ensures var ps := ProcessedUpTo(contents, signerName, style, p);
      ps[p := Page(ps[p].entries, ps[p].stamps + Added(Detect(contents[p]), signerName, style))] ==
        ProcessedUpTo(contents, signerName, style, p + 1)
    ensures Detect(contents[p]) == [] ==>
      ProcessedUpTo(contents, signerName, style, p) == ProcessedUpTo(contents, signerName, style, p + 1)
  {
    var ps := ProcessedUpTo(contents, signerName, style, p);
    assert ps[p].stamps == [];
    assert [] + Added(Detect(contents[p]), signerName, style) == Added(Detect(contents[p]), signerName, style);
  }

  lemma LocationsStep(rs: seq<seq<Region>>, p: nat)
    requires p < |rs|
    ensures Locations(rs[..p + 1]) == Locations(rs[..p]) + PageLocations(p, rs[p])
    ensures Total(rs[..p + 1]) == Total(rs[..p]) + |rs[p]|
    ensures PagesWith(rs[..p + 1]) == PagesWith(rs[..p]) + (if rs[p] != [] then 1 else 0)
  {
    assert rs[..p + 1][..p] == rs[..p];
  }

  /** The loop over one page's regions: records each region's location and,
      when the signer's name is given, stamps the name just above it. */
  method RecordAreas(doc: Document, p: nat, areas: seq<Region>,
                     signerName: Option<string>, signatureStyle: string, locations: seq<Location>)
    returns (recorded: seq<Location>)
    requires p < |doc.pages| && !doc.closed
    modifies doc
    ensures recorded == locations + PageLocations(p, areas)
    ensures doc.pages == old(doc.pages)[p := Page(old(doc.pages)[p].entries,
      old(doc.pages)[p].stamps + Added(areas, signerName, StyleFor(signatureStyle)))]
    ensures doc.saves == old(doc.saves) && !doc.closed
  {
    ghost var pages := doc.pages;
    ghost var page := doc.pages[p];
    ghost var style := StyleFor(signatureStyle);
    recorded := locations;
    assert Added(areas[..0], signerName, style) == [];
    assert page.stamps + [] == page.stamps;
    assert pages[p := page] == pages;
    for j := 0 to |areas|
      invariant p < |doc.pages| && !doc.closed && doc.saves == old(doc.saves)
      invariant recorded == locations + PageLocations(p, areas[..j])
      invariant doc.pages == pages[p := Page(page.entries, page.stamps + Added(areas[..j], signerName, style))]
    {
      var area := areas[j];
      recorded := recorded + [LocationOf(p, area)];
      ghost var before := Added(areas[..j], signerName, style);
      if signerName.Some? && signerName.value != "" {
        var chosen := StyleFor(signatureStyle);
        var stamp := Stamp(area.rect.x0, area.rect.y0 - StampLift, signerName.value,
                           chosen.font, chosen.size, chosen.color);
        doc.InsertText(p, stamp);
        assert stamp == StampFor(area, signerName.value, style);
        assert Added(areas[..j + 1], signerName, style) == before + [stamp];
        assert (page.stamps + before) + [stamp] == page.stamps + (before + [stamp]);
      } else {
        assert Added(areas[..j + 1], signerName, style) == before;
      }
      assert PageLocations(p, areas[..j + 1]) == PageLocations(p, areas[..j]) + [LocationOf(p, area)];
    }
    assert areas[..|areas|] == areas;
  }

  /** `process_pdf_signatures(input_pdf_path, signer_name, signature_style)`
      on a file system that maps paths to page contents. A missing input is
      reported before anything is opened; otherwise the document is opened,
      every page is scanned and, when the signer's name is given, stamped and
      the document saved once under the output path; the document is closed
      on every path out. */
  method ProcessPdfSignatures(
    files: map<string, seq<seq<Entry>>>, inputPath: string,
    signerName: Option<string>, signatureStyle: string, saveSucceeds: bool)
    returns (result: Result<Stats, ProcessError>, doc: Document?)
    ensures inputPath !in files ==> result == Failure(FileNotFound) && doc == null
    ensures inputPath in files ==>
      var contents := files[inputPath];
      var final := ProcessedUpTo(contents, signerName, StyleFor(signatureStyle), |contents|);
      && doc != null && fresh(doc) && doc.closed
      && doc.pages == final
      && doc.saves == (if Signs(signerName) && saveSucceeds then [(OutputPath(inputPath), final)] else [])
      && result == (if Signs(signerName) && !saveSucceeds then Failure(SaveFailed)
                    else Success(StatsFor(contents, inputPath, signerName)))
  {
    if inputPath !in files {
      return Failure(FileNotFound), null;
    }
    var outputPath := OutputPath(inputPath);
    var contents := files[inputPath];
    doc := new Document.Open(contents);
    ghost var rs := AllRegions(contents);
    ghost var style := StyleFor(signatureStyle);
    var total, pagesWith, pagesProcessed := 0, 0, 0;
    var locations: seq<Location> := [];
    assert rs[..0] == [];
    for p := 0 to |doc.pages|
      invariant |doc.pages| == |contents| && !doc.closed && doc.saves == []
      invariant doc.pages == ProcessedUpTo(contents, signerName, style, p)
      invariant pagesProcessed == p
      invariant locations == Locations(rs[..p])
      invariant total == Total(rs[..p]) && pagesWith == PagesWith(rs[..p])
    {
      pagesProcessed := pagesProcessed + 1;
      var areas := FindSignatureLines(doc.pages[p].entries);
      assert areas == rs[p];
      LocationsStep(rs, p);
      ProcessedStep(contents, signerName, style, p);
      if |areas| > 0 {
        pagesWith := pagesWith + 1;
        total := total + |areas|;
        locations := RecordAreas(doc, p, areas, signerName, signatureStyle, locations);
      }
    }
    assert rs[..|contents|] == rs;
    if signerName.Some? && signerName.value != "" {
      var ok := doc.Save(outputPath, saveSucceeds);
      if !ok {
        doc.Close();
        return Failure(SaveFailed), doc;
      }
    }
    doc.Close();
    result := Success(Stats(total, pagesWith, pagesProcessed, locations, outputPath, signerName));
  }

  /** An unknown style name falls back to the `cursive` entry. */
  lemma StyleFallback(name: string)
    ensures name !in {"cursive", "handwritten", "artistic"} ==>
      StyleFor(name) == Style("Dancing Script", 24, Color(0.0, 0.0, 1.0))
    ensures name in {"cursive", "handwritten", "artistic"} ==> StyleFor(name) == SignatureStyles[name]
  {
  }

  /** The output name differs from the input exactly when the input contains
      `.pdf`; so a name with no lower-case `.pdf` in it, such as `X.PDF`, maps
      to itself. */
  lemma OutputPathUnchanged(inputPath: string)
    ensures OutputPath(inputPath) == inputPath <==> !Contains(inputPath, ".pdf")
    ensures |OutputPath(inputPath)| >= |inputPath|
  {
    ReplaceAllGrows(inputPath, ".pdf", "_assinado.pdf");
    if !Contains(inputPath, ".pdf") {
      ReplaceAllAbsent(inputPath, ".pdf", "_assinado.pdf");
    }
  }

  /** A non-empty name without `.pdf`, followed by `.pdf`, does not start
      with `.pdf`. */
  lemma NoMatchAtStart(base: string)
    requires base != [] && !Contains(base, ".pdf")
    ensures (base + ".pdf")[..4] != ".pdf"
  {
    var s := base + ".pdf";
    if |base| < 4 {
      assert s[..4][|base|] == '.';
    } else {
      assert base[..4] == s[..4];
      assert !OccursAt(base, ".pdf", 0);
    }
  }

  /** A name that ends in its only `.pdf` gets `_assinado` before the
      extension. */
  lemma {:induction false} OutputPathOfPdf(base: string)
    requires !Contains(base, ".pdf")
    ensures OutputPath(base + ".pdf") == base + "_assinado.pdf"
    decreases |base|
  {
    var s := base + ".pdf";
    if base == [] {
      assert s == ".pdf" && s[4..] == [];
      assert ReplaceAll([], ".pdf", "_assinado.pdf") == [];
    } else {
      NoMatchAtStart(base);
      assert s[1..] == base[1..] + ".pdf";
      if Contains(base[1..], ".pdf") {
        ContainsTail(base, ".pdf");
      }
      OutputPathOfPdf(base[1..]);
      assert [base[0]] + (base[1..] + "_assinado.pdf") == base + "_assinado.pdf";
    }
  }

  /** `total_signature_lines` is the number of recorded locations. */
  lemma {:induction false} TotalIsLocations(rs: seq<seq<Region>>)
    ensures |Locations(rs)| == Total(rs)
  {
    if rs != [] {
      TotalIsLocations(rs[..|rs| - 1]);
    }
  }

  /** `pages_with_signatures` is at most the number of pages and at most the
      number of regions. */
  lemma {:induction false} PagesWithBounds(rs: seq<seq<Region>>)
    ensures PagesWith(rs) <= |rs|
    ensures PagesWith(rs) <= Total(rs)
  {
    if rs != [] {
      PagesWithBounds(rs[..|rs| - 1]);
    }
  }

  /** The statistics agree with each other. */
  lemma StatsConsistent(contents: seq<seq<Entry>>, inputPath: string, signerName: Option<string>)
    ensures var st := StatsFor(contents, inputPath, signerName);
      && st.pagesProcessed == |contents|
      && st.totalSignatureLines == |st.signatureLocations|
      && st.pagesWithSignatures <= st.pagesProcessed
      && st.pagesWithSignatures <= st.totalSignatureLines
      && st.outputPath == OutputPath(inputPath)
      && st.signerName == signerName
  {
    TotalIsLocations(AllRegions(contents));
    PagesWithBounds(AllRegions(contents));
  }

  /** Locations come page after page, each tagged with an existing page. */
  lemma {:induction false} LocationsInPageOrder(rs: seq<seq<Region>>)
    ensures forall k :: 0 <= k < |Locations(rs)| ==> Locations(rs)[k].page < |rs|
    ensures forall k, l :: 0 <= k < l < |Locations(rs)| ==> Locations(rs)[k].page <= Locations(rs)[l].page
  {
    if rs != [] {
      var n := |rs| - 1;
      var a, b := Locations(rs[..n]), PageLocations(n, rs[n]);
      LocationsInPageOrder(rs[..n]);
      var all := a + b;
      assert Locations(rs) == all;
      forall k | 0 <= k < |all|
        ensures all[k].page <= n
      {
        if k < |a| {
          assert all[k] == a[k];
        } else {
          assert all[k] == b[k - |a|];
        }
      }
      forall k, l | 0 <= k < l < |all|
        ensures all[k].page <= all[l].page
      {
        if l < |a| {
          assert all[k] == a[k] && all[l] == a[l];
        } else if k >= |a| {
          assert all[k] == b[k - |a|] && all[l] == b[l - |a|];
        } else {
          assert all[k] == a[k] && all[l] == b[l - |a|];
        }
      }
    }
  }

  /** The locations tagged with page `p`. */
  function OnPage(ls: seq<Location>, p: nat): seq<Location>
  {
    if ls == [] then []
    else OnPage(ls[..|ls| - 1], p) + (if ls[|ls| - 1].page == p then [ls[|ls| - 1]] else [])
  }

  lemma {:induction false} OnPageAppend(a: seq<Location>, b: seq<Location>, p: nat)
    ensures OnPage(a + b, p) == OnPage(a, p) + OnPage(b, p)
    decreases |b|
  {
    if b == [] {
      assert a + b == a;
    } else {
      assert (a + b)[..|a + b| - 1] == a + b[..|b| - 1];
      OnPageAppend(a, b[..|b| - 1], p);
    }
  }

  /** Selecting page `p` from locations that all lie on page `q`. */
  lemma {:induction false} OnPageUniform(ls: seq<Location>, q: nat, p: nat)
    requires forall k :: 0 <= k < |ls| ==> ls[k].page == q
    ensures OnPage(ls, p) == if p == q then ls else []
  {
    if ls != [] {
      var init := ls[..|ls| - 1];
      assert forall k :: 0 <= k < |init| ==> init[k] == ls[k];
      OnPageUniform(init, q, p);
      assert init + [ls[|ls| - 1]] == ls;
    }
  }

  lemma OnPageOfPage(q: nat, areas: seq<Region>, p: nat)
    ensures OnPage(PageLocations(q, areas), p) == if p == q then PageLocations(q, areas) else []
  {
    OnPageUniform(PageLocations(q, areas), q, p);
  }

  /** The locations of each page are exactly that page's regions, in the
      order the finder returned them. */
  lemma {:induction false} LocationsOfEachPage(rs: seq<seq<Region>>, p: nat)
    ensures OnPage(Locations(rs), p) == if p < |rs| then PageLocations(p, rs[p]) else []
  {
    if rs != [] {
      var n := |rs| - 1;
      LocationsOfEachPage(rs[..n], p);
      OnPageAppend(Locations(rs[..n]), PageLocations(n, rs[n]), p);
      OnPageOfPage(n, rs[n], p);
    }
  }

  /** With a signer's name every region of every page gets exactly one stamp,
      at the anchor's left edge and just above its top edge; without one no
      page is stamped. */
  lemma StampsPerRegion(contents: seq<seq<Entry>>, signerName: Option<string>, styleName: string, p: nat)
    requires p < |contents|
    ensures var page := ProcessedUpTo(contents, signerName, StyleFor(styleName), |contents|)[p];
      var areas := Detect(contents[p]);
      && page.entries == contents[p]
      && (Signs(signerName) ==> |page.stamps| == |areas|)
      && (!Signs(signerName) ==> page.stamps == [])
      && (Signs(signerName) ==> forall k :: 0 <= k < |areas| ==>
            && page.stamps[k].x == areas[k].rect.x0
            && page.stamps[k].y == areas[k].rect.y0 - StampLift
            && page.stamps[k].y < areas[k].rect.y0
            && page.stamps[k].text == signerName.value
            && page.stamps[k].font == StyleFor(styleName).font
            && page.stamps[k].size == StyleFor(styleName).size
            && page.stamps[k].color == StyleFor(styleName).color)
  {
  }
}
