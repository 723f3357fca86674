/** `convert_html_to_pdf` and `convert_html_to_pdf_parallel`: rendering one
    HTML invoice to a PDF with three fallbacks, and converting the matched
    invoices into temporary PDFs. */
module Conversion {
  import opened Wrappers
  import opened Text
  import opened Paths
  import opened Dates
  import opened Matcher

  /** The three attempts, in the order they are tried: the configured
      options, the minimal options, and the file's content rendered from
      memory. */
  datatype Tier = FullOptions | MinimalOptions | FromContent

  /** The renderer's outcome for an HTML file, an output path and a tier
      (what `pdfkit` does, or the error it raises). */
  type Renderer = (Path, Path, Tier) -> Attempt

  /** `convert_html_to_pdf`: `(true, "")` at the first tier that succeeds,
      else `(false, <the last tier's error>)`. */
  function ConvertHtmlToPdf(html: Path, out: Path, render: Renderer): (bool, string)
  {
    match render(html, out, FullOptions)
    case Succeeded => (true, "")
    case Failed(_) =>
      match render(html, out, MinimalOptions)
      case Succeeded => (true, "")
      case Failed(_) =>
        match render(html, out, FromContent)
        case Succeeded => (true, "")
        case Failed(e3) => (false, e3)
  }

  /** A successfully converted invoice: the temporary PDF, its date and identifier. */
  datatype PdfInfo = PdfInfo(pdf: Path, date: Option<Date>, evrakId: Option<string>)

  /** An entry of `error_list`: the identifier (or "Bilinmiyor", unknown) and the message. */
  datatype ErrorEntry = ErrorEntry(key: string, message: string)

  /** What `convert_one_file` returns: the PDF path or nothing, the date,
      the identifier, and an error entry or nothing. */
  datatype ConvResult = ConvResult(pdf: Option<Path>, date: Option<Date>, evrakId: Option<string>, error: Option<ErrorEntry>)

  const UNKNOWN_ID: string := "Bilinmiyor"
  const CONVERSION_ERROR: string := "D\U{f6}n\U{fc}\U{15f}t\U{fc}rme hatas\U{131}: "
  const DATED_PREFIX: string := "fatura_"
  const UNDATED_PREFIX: string := "fatura_tarihsiz_"

  /** The temporary file name of the invoice at position `idx`: a `.pdf`
      name starting `fatura_`, carrying the compact date right after that
      prefix when there is one. */
  function TempName(idx: nat, date: Option<Date>): (name: string)
    ensures |name| > 20 && name[..7] == DATED_PREFIX && name[|name| - 4..] == ".pdf"
    ensures date.Some? ==> name[7..15] == CompactText(date.value) && name[15] == '_'
    ensures date.None? ==> name[..16] == UNDATED_PREFIX
  {
    match date
    case Some(d) => DATED_PREFIX + CompactText(d) + "_" + NatToString(idx + 1) + ".pdf"
    case None => UNDATED_PREFIX + NatToString(idx + 1) + ".pdf"
  }

  function ErrorKey(evrakId: Option<string>): string
  {
    if evrakId.Some? && evrakId.value != "" then evrakId.value else UNKNOWN_ID
  }

  /** `convert_one_file`. */
  function ConvertOneFile(idx: nat, item: Dated, tempDir: Path, render: Renderer): ConvResult
  {
    var pdfPath := Join(tempDir, TempName(idx, item.date));
    var (ok, err) := ConvertHtmlToPdf(item.html, pdfPath, render);
    if ok then ConvResult(Some(pdfPath), item.date, item.evrakId, None)
    else ConvResult(None, item.date, item.evrakId, Some(ErrorEntry(ErrorKey(item.evrakId), CONVERSION_ERROR + err)))
  }

  /** `convert_one_file` for a fixed temporary directory and renderer. */
  type Converter = (nat, Dated) -> ConvResult

  function OneFile(tempDir: Path, render: Renderer): (convert: Converter)
    ensures forall idx, item :: convert(idx, item) == ConvertOneFile(idx, item, tempDir, render)
  {
    (idx: nat, item: Dated) => ConvertOneFile(idx, item, tempDir, render)
  }

  /** The two lists gathered from the results in submission order. */
  function Gathered(items: seq<Dated>, convert: Converter): (seq<PdfInfo>, seq<ErrorEntry>)
  {
    if items == [] then ([], [])
    else
      var g := Gathered(items[..|items| - 1], convert);
      var r := convert(|items| - 1, items[|items| - 1]);
      (g.0 + (if r.pdf.Some? then [PdfInfo(r.pdf.value, r.date, r.evrakId)] else []),
       g.1 + (if r.error.Some? then [r.error.value] else []))
  }

  /** `convert_html_to_pdf_parallel`, its results taken in submission order;
      the application passes `OneFile(tempDir, render)`. */
  method ConvertAll(items: seq<Dated>, convert: Converter)
    returns (pdfs: seq<PdfInfo>, errors: seq<ErrorEntry>)
    ensures (pdfs, errors) == Gathered(items, convert)
  {
    pdfs, errors := [], [];
    for idx := 0 to |items|
      invariant pdfs == Gathered(items[..idx], convert).0
      invariant errors == Gathered(items[..idx], convert).1
    {
      assert items[..idx + 1][..idx] == items[..idx];
      var r := convert(idx, items[idx]);
      assert items[..idx + 1][idx] == items[idx];
      if r.pdf.Some? {
        pdfs := pdfs + [PdfInfo(r.pdf.value, r.date, r.evrakId)];
      }
      if r.error.Some? {
        errors := errors + [r.error.value];
      }
    }
    assert items[..|items|] == items;
  }

  // ---------------------------------------------------------------------
  // Properties

  /** Conversion succeeds exactly when some tier succeeds; on failure the
      error is the last tier's. */
  lemma ConvertIff(html: Path, out: Path, render: Renderer)
    ensures ConvertHtmlToPdf(html, out, render).0 <==> exists t :: render(html, out, t).Succeeded?
    ensures ConvertHtmlToPdf(html, out, render).0 ==> ConvertHtmlToPdf(html, out, render).1 == ""
    ensures !ConvertHtmlToPdf(html, out, render).0 ==>
      ConvertHtmlToPdf(html, out, render).1 == render(html, out, FromContent).message
  {
    if exists t :: render(html, out, t).Succeeded? {
      var t :| render(html, out, t).Succeeded?;
      assert t == FullOptions || t == MinimalOptions || t == FromContent;
    }
  }

  /** The chain stops at the first success: the tiers after it do not matter. */
  lemma LaterTiersUnused(html: Path, out: Path, render: Renderer, other: Renderer, first: Tier)
    requires render(html, out, first).Succeeded? && other(html, out, first).Succeeded?
    requires first != FullOptions ==> render(html, out, FullOptions).Failed? && other(html, out, FullOptions).Failed?
    requires first == FromContent ==> render(html, out, MinimalOptions).Failed? && other(html, out, MinimalOptions).Failed?
    ensures ConvertHtmlToPdf(html, out, render) == ConvertHtmlToPdf(html, out, other) == (true, "")
  {
  }

  /** Each input gives exactly one of a PDF and an error entry; the PDF is
      the temporary name in the temporary directory, the error carries the
      identifier (or "Bilinmiyor") and the renderer's last message. */
  lemma OneFileOutcome(tempDir: Path, render: Renderer, idx: nat, item: Dated)
    ensures var r := OneFile(tempDir, render)(idx, item);
      var out := Join(tempDir, TempName(idx, item.date));
      var (ok, err) := ConvertHtmlToPdf(item.html, out, render);
      && r.date == item.date && r.evrakId == item.evrakId
      && (r.pdf.Some? <==> ok) && (r.error.Some? <==> !ok)
      && (ok ==> r.pdf.value == out)
      && (!ok ==> r.error.value == ErrorEntry(ErrorKey(item.evrakId), CONVERSION_ERROR + render(item.html, out, FromContent).message))
  {
    ConvertIff(item.html, Join(tempDir, TempName(idx, item.date)), render);
  }

  /** Both temporary-name prefixes, with the date when there is one, are
      16 characters long; the counter follows. */
  lemma TempNameCounter(idx: nat, date: Option<Date>)
    ensures var name := TempName(idx, date);
      name[16..|name| - 4] == NatToString(idx + 1)
  {
    var n := NatToString(idx + 1);
    match date
    case Some(d) =>
      var pre := DATED_PREFIX + CompactText(d) + "_";
      assert |pre| == 16;
      assert TempName(idx, date) == pre + n + ".pdf";
    case None =>
      assert |UNDATED_PREFIX| == 16;
  }

  /** Inputs at different positions get different temporary names. */
  lemma TempNamesDistinct(i: nat, di: Option<Date>, j: nat, dj: Option<Date>)
    requires i != j
    ensures TempName(i, di) != TempName(j, dj)
  {
    TempNameCounter(i, di);
    TempNameCounter(j, dj);
    NatToStringInjective(i + 1, j + 1);
  }

  /** Different positions never produce the same PDF path. */
  ghost predicate DistinctOutputs(convert: Converter)
  {
    forall i, j, a, b :: i != j && convert(i, a).pdf.Some? && convert(j, b).pdf.Some? ==>
      convert(i, a).pdf.value != convert(j, b).pdf.value
  }

  /** Every result carries exactly one of a PDF and an error. */
  ghost predicate ExactlyOne(convert: Converter)
  {
    forall i, a :: convert(i, a).pdf.Some? != convert(i, a).error.Some?
  }

  lemma OneFileDistinctOutputs(tempDir: Path, render: Renderer)
    ensures DistinctOutputs(OneFile(tempDir, render))
    ensures ExactlyOne(OneFile(tempDir, render))
  {
    var convert := OneFile(tempDir, render);
    forall i, j, a, b | i != j && convert(i, a).pdf.Some? && convert(j, b).pdf.Some?
      ensures convert(i, a).pdf.value != convert(j, b).pdf.value
    {
      OneFileOutcome(tempDir, render, i, a);
      OneFileOutcome(tempDir, render, j, b);
      TempNamesDistinct(i, a.date, j, b.date);
      JoinInjective(tempDir, TempName(i, a.date), TempName(j, b.date));
    }
    forall i, a
      ensures convert(i, a).pdf.Some? != convert(i, a).error.Some?
    {
      OneFileOutcome(tempDir, render, i, a);
    }
  }

  /** The positions of the inputs that gave a PDF, in input order. */
  function SucceededAt(items: seq<Dated>, convert: Converter): (ps: seq<nat>)
    ensures forall k :: 0 <= k < |ps| ==> ps[k] < |items|
  {
    if items == [] then []
    else
      var n := |items| - 1;
      SucceededAt(items[..n], convert) + if convert(n, items[n]).pdf.Some? then [n] else []
  }

  /** The positions of the inputs that gave an error, in input order. */
  function FailedAt(items: seq<Dated>, convert: Converter): (ps: seq<nat>)
    ensures forall k :: 0 <= k < |ps| ==> ps[k] < |items|
  {
    if items == [] then []
    else
      var n := |items| - 1;
      FailedAt(items[..n], convert) + if convert(n, items[n]).error.Some? then [n] else []
  }

  predicate Increasing(ps: seq<nat>)
  {
    forall k, l :: 0 <= k < l < |ps| ==> ps[k] < ps[l]
  }

  /** The PDF list holds, in input order, the PDF of every input that gave
      one and nothing else; the error list likewise holds the error of every
      input that gave one. */
  lemma {:induction false} GatheredInOrder(items: seq<Dated>, convert: Converter)
    ensures var (pdfs, errors) := Gathered(items, convert);
      var ok, bad := SucceededAt(items, convert), FailedAt(items, convert);
      && |pdfs| == |ok| && Increasing(ok)
      && (forall k :: 0 <= k < |ok| ==>
            var r := convert(ok[k], items[ok[k]]); r.pdf.Some? && pdfs[k] == PdfInfo(r.pdf.value, r.date, r.evrakId))
      && |errors| == |bad| && Increasing(bad)
      && (forall k :: 0 <= k < |bad| ==>
            var r := convert(bad[k], items[bad[k]]); r.error.Some? && errors[k] == r.error.value)
  {
    if items != [] {
      var n := |items| - 1;
      var front := items[..n];
      GatheredInOrder(front, convert);
      assert forall k :: 0 <= k < n ==> front[k] == items[k];
    }
  }

  /** Every input position is in exactly one of the two lists of positions,
      so `|pdfs| + |errors| == |items|`. */
  lemma Partition(items: seq<Dated>, convert: Converter, i: nat)
    requires ExactlyOne(convert) && i < |items|
    ensures i in SucceededAt(items, convert) <==> convert(i, items[i]).pdf.Some?
    ensures i in FailedAt(items, convert) <==> convert(i, items[i]).error.Some?
    ensures |SucceededAt(items, convert)| + |FailedAt(items, convert)| == |items|
  {
    PartitionAt(items, convert, i);
    PartitionCount(items, convert);
  }

  lemma {:induction false} PartitionAt(items: seq<Dated>, convert: Converter, i: nat)
    requires i < |items|
    ensures i in SucceededAt(items, convert) <==> convert(i, items[i]).pdf.Some?
    ensures i in FailedAt(items, convert) <==> convert(i, items[i]).error.Some?
  {
    var n := |items| - 1;
    var front := items[..n];
    if i < n {
      PartitionAt(front, convert, i);
      assert front[i] == items[i];
    }
  }

  lemma {:induction false} PartitionCount(items: seq<Dated>, convert: Converter)
    requires ExactlyOne(convert)
    ensures |SucceededAt(items, convert)| + |FailedAt(items, convert)| == |items|
  {
    if items != [] {
      var n := |items| - 1;
      PartitionCount(items[..n], convert);
      assert convert(n, items[n]).pdf.Some? != convert(n, items[n]).error.Some?;
    }
  }

  /** The PDFs are distinct paths, so no conversion overwrites another's. */
  lemma PdfsDistinct(items: seq<Dated>, convert: Converter)
    requires DistinctOutputs(convert)
    ensures var pdfs := Gathered(items, convert).0;
      forall k, l :: 0 <= k < l < |pdfs| ==> pdfs[k].pdf != pdfs[l].pdf
  {
    GatheredInOrder(items, convert);
    var pdfs := Gathered(items, convert).0;
    var ok := SucceededAt(items, convert);
    forall k, l | 0 <= k < l < |pdfs|
      ensures pdfs[k].pdf != pdfs[l].pdf
    {
      assert ok[k] < ok[l];
    }
  }
}
