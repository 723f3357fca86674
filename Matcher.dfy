/** `match_html_with_xml`: pairing every HTML invoice with the XML of the
    same stem and choosing its date and document identifier. */
module Matcher {
  import opened Wrappers
  import opened Paths
  import opened Dates
  import XmlMeta
  import HtmlDates

  /** What the matcher uses: the key by which files are paired (the stem
      of the file name in the application), and what it learns from the
      files it opens: the XML date, the XML document identifier and the
      HTML heuristic's date. */
  datatype Lookup = Lookup(
    key: Path -> string,
    xmlDate: Path -> Option<Date>,
    xmlId: Path -> Option<string>,
    htmlDate: Path -> Option<Date>)

  /** The lookup of the application, given the parsed XML of each path and
      the text of each HTML page (`None` when it cannot be read): files are
      paired by stem. */
  function AppLookup(xml: Path -> XmlMeta.XmlFile, page: Path -> Option<string>): (r: Lookup)
    ensures forall p :: r.key(p) == Stem(p)
    ensures forall p :: r.xmlId(p) == XmlMeta.ExtractEvrakId(xml(p))
    ensures forall p :: r.xmlDate(p) == XmlMeta.ExtractDateFromXml(xml(p))
    ensures forall p :: r.htmlDate(p) == HtmlDates.InvoiceDateOfFile(page(p))
  {
    Lookup(
      Stem,
      p => XmlMeta.ExtractDateFromXml(xml(p)),
      p => XmlMeta.ExtractEvrakId(xml(p)),
      p => HtmlDates.InvoiceDateOfFile(page(p)))
  }

  /** One entry of `files_with_dates`. */
  datatype Dated = Dated(html: Path, date: Option<Date>, evrakId: Option<string>)

  /** `xml_dict`: each stem mapped to the last XML with that stem. */
  function XmlIndex(xmls: seq<Path>, key: Path -> string): (index: map<string, Path>)
    ensures forall k :: k in index ==> index[k] in xmls && key(index[k]) == k
  {
    if xmls == [] then map[]
    else
      var x := xmls[|xmls| - 1];
      XmlIndex(xmls[..|xmls| - 1], key)[key(x) := x]
  }

  /** `process_html`: the entry for one HTML file and whether it had no XML. */
  function ProcessHtml(h: Path, index: map<string, Path>, r: Lookup): (Dated, bool)
  {
    var base := r.key(h);
    if base in index then
      var x := index[base];
      var date := r.xmlDate(x);
      var id := r.xmlId(x);
      if date.None? then (Dated(h, r.htmlDate(h), id), false) else (Dated(h, date, id), false)
    else
      (Dated(h, r.htmlDate(h), None), true)
  }

  /** `files_with_dates`: one entry per HTML file, in input order. */
  function MatchAll(htmls: seq<Path>, index: map<string, Path>, r: Lookup): (ds: seq<Dated>)
    ensures |ds| == |htmls|
    ensures forall i :: 0 <= i < |htmls| ==> ds[i].html == htmls[i]
  {
    if htmls == [] then []
    else MatchAll(htmls[..|htmls| - 1], index, r) + [ProcessHtml(htmls[|htmls| - 1], index, r).0]
  }

  /** `html_without_xml`: the HTML files whose stem has no XML, in input order. */
  function Unmatched(htmls: seq<Path>, index: map<string, Path>, key: Path -> string): seq<Path>
  {
    if htmls == [] then []
    else
      var h := htmls[|htmls| - 1];
      Unmatched(htmls[..|htmls| - 1], index, key) + if key(h) in index then [] else [h]
  }

  // ---------------------------------------------------------------------
  // The loops

  method BuildXmlIndex(xmls: seq<Path>, key: Path -> string) returns (index: map<string, Path>)
    ensures index == XmlIndex(xmls, key)
  {
    index := map[];
    for i := 0 to |xmls|
      invariant index == XmlIndex(xmls[..i], key)
    {
      assert xmls[..i + 1][..i] == xmls[..i];
      index := index[key(xmls[i]) := xmls[i]];
    }
    assert xmls[..|xmls|] == xmls;
  }

  method MatchHtmlWithXml(htmls: seq<Path>, xmls: seq<Path>, r: Lookup)
    returns (filesWithDates: seq<Dated>, withoutXml: seq<Path>)
    ensures filesWithDates == MatchAll(htmls, XmlIndex(xmls, r.key), r)
    ensures withoutXml == Unmatched(htmls, XmlIndex(xmls, r.key), r.key)
  {
    var index := BuildXmlIndex(xmls, r.key);
    filesWithDates, withoutXml := [], [];
    for i := 0 to |htmls|
      invariant filesWithDates == MatchAll(htmls[..i], index, r)
      invariant withoutXml == Unmatched(htmls[..i], index, r.key)
    {
      assert htmls[..i + 1][..i] == htmls[..i];
      var (entry, noXml) := ProcessHtml(htmls[i], index, r);
      filesWithDates := filesWithDates + [entry];
      if noXml {
        withoutXml := withoutXml + [htmls[i]];
      }
    }
    assert htmls[..|htmls|] == htmls;
  }

  // ---------------------------------------------------------------------
  // Properties

  /** A key is in `xml_dict` exactly when some XML has that key. */
  lemma {:induction false} XmlIndexKeys(xmls: seq<Path>, key: Path -> string, k: string)
    ensures k in XmlIndex(xmls, key) <==> exists j :: 0 <= j < |xmls| && key(xmls[j]) == k
  {
    if xmls != [] {
      var front := xmls[..|xmls| - 1];
      XmlIndexKeys(front, key, k);
      if exists j :: 0 <= j < |front| && key(front[j]) == k {
        var j :| 0 <= j < |front| && key(front[j]) == k;
        assert xmls[j] == front[j];
      }
      if exists j :: 0 <= j < |xmls| && key(xmls[j]) == k {
        var j :| 0 <= j < |xmls| && key(xmls[j]) == k;
        if j < |front| {
          assert front[j] == xmls[j];
        }
      }
    }
  }

  /** The last XML with a key wins over earlier XMLs with the same key. */
  lemma {:induction false} LastXmlWins(xmls: seq<Path>, key: Path -> string, j: nat)
    requires j < |xmls|
    requires forall l :: j < l < |xmls| ==> key(xmls[l]) != key(xmls[j])
    ensures key(xmls[j]) in XmlIndex(xmls, key) && XmlIndex(xmls, key)[key(xmls[j])] == xmls[j]
  {
    if j < |xmls| - 1 {
      var front := xmls[..|xmls| - 1];
      assert forall l :: j < l < |front| ==> front[l] == xmls[l];
      LastXmlWins(front, key, j);
    }
  }

  /** Entry `i` of the result, in terms of the `i`-th HTML file alone. */
  lemma {:induction false} MatchAllAt(htmls: seq<Path>, index: map<string, Path>, r: Lookup, i: nat)
    requires i < |htmls|
    ensures MatchAll(htmls, index, r)[i] == ProcessHtml(htmls[i], index, r).0
  {
    if i < |htmls| - 1 {
      var front := htmls[..|htmls| - 1];
      MatchAllAt(front, index, r, i);
    }
  }

  /** An HTML file with no XML of its key keeps the HTML heuristic's date
      and has no identifier. */
  lemma UnmatchedEntry(htmls: seq<Path>, xmls: seq<Path>, r: Lookup, i: nat)
    requires i < |htmls|
    requires forall j :: 0 <= j < |xmls| ==> r.key(xmls[j]) != r.key(htmls[i])
    ensures MatchAll(htmls, XmlIndex(xmls, r.key), r)[i] == Dated(htmls[i], r.htmlDate(htmls[i]), None)
  {
    XmlIndexKeys(xmls, r.key, r.key(htmls[i]));
    MatchAllAt(htmls, XmlIndex(xmls, r.key), r, i);
  }

  /** An HTML file paired with XML `xmls[j]` (the last XML of its key) gets
      that XML's identifier, and that XML's date unless it is missing, in
      which case the HTML heuristic's date. */
  lemma MatchedEntry(htmls: seq<Path>, xmls: seq<Path>, r: Lookup, i: nat, j: nat)
    requires i < |htmls| && j < |xmls| && r.key(xmls[j]) == r.key(htmls[i])
    requires forall l :: j < l < |xmls| ==> r.key(xmls[l]) != r.key(xmls[j])
    ensures MatchAll(htmls, XmlIndex(xmls, r.key), r)[i] ==
      Dated(htmls[i],
            if r.xmlDate(xmls[j]).Some? then r.xmlDate(xmls[j]) else r.htmlDate(htmls[i]),
            r.xmlId(xmls[j]))
  {
    LastXmlWins(xmls, r.key, j);
    MatchAllAt(htmls, XmlIndex(xmls, r.key), r, i);
  }

  /** The HTML heuristic is consulted only when the paired XML has no date:
      whatever it would say then makes no difference. */
  lemma HtmlIgnoredWhenXmlDated(htmls: seq<Path>, xmls: seq<Path>, r: Lookup, other: Path -> Option<Date>, i: nat)
    requires i < |htmls|
    requires r.key(htmls[i]) in XmlIndex(xmls, r.key)
    requires r.xmlDate(XmlIndex(xmls, r.key)[r.key(htmls[i])]).Some?
    ensures MatchAll(htmls, XmlIndex(xmls, r.key), r)[i] == MatchAll(htmls, XmlIndex(xmls, r.key), r.(htmlDate := other))[i]
  {
    MatchAllAt(htmls, XmlIndex(xmls, r.key), r, i);
    MatchAllAt(htmls, XmlIndex(xmls, r.key), r.(htmlDate := other), i);
  }

  /** `html_without_xml` holds exactly the HTML files without an XML of their key. */
  lemma {:induction false} UnmatchedIff(htmls: seq<Path>, index: map<string, Path>, key: Path -> string, h: Path)
    ensures h in Unmatched(htmls, index, key) <==> h in htmls && key(h) !in index
  {
    if htmls != [] {
      var front := htmls[..|htmls| - 1];
      UnmatchedIff(front, index, key, h);
      assert htmls == front + [htmls[|htmls| - 1]];
    }
  }

  /** With the application's lookup every identifier in the result is one
      of the 16-character identifiers accepted from the XML. */
  lemma AppIdsHaveSixteenChars(htmls: seq<Path>, xmls: seq<Path>, xml: Path -> XmlMeta.XmlFile, page: Path -> Option<string>, i: nat)
    requires i < |htmls|
    ensures var id := MatchAll(htmls, XmlIndex(xmls, Stem), AppLookup(xml, page))[i].evrakId;
      id.Some? ==> |id.value| == 16
  {
    var r := AppLookup(xml, page);
    assert r.key == Stem;
    MatchAllAt(htmls, XmlIndex(xmls, Stem), r, i);
  }
}
