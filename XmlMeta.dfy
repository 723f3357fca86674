/** Issue date and document identifier of a UBL 2.x invoice (Turkish
    e-Fatura XML). The parsed document is given as the root's descendants in
    document order, which is what ElementTree's `.//tag` searches visit. */
module XmlMeta {
  import opened Wrappers
  import opened Text
  import opened Dates

  /** Namespace URIs of OASIS UBL 2.x; the empty string is "no namespace". */
  const NO_NS: string := ""
  const CBC_NS: string := "urn:oasis:names:specification:ubl:schema:xsd:CommonBasicComponents-2"
  const INVOICE_NS: string := "urn:oasis:names:specification:ubl:schema:xsd:Invoice-2"

  /** An element below the root. An element without text (`text is None`)
      has text "", which the pipeline treats the same way. */
  datatype Element = Element(ns: string, local: string, text: string)

  /** What `ET.parse` gives: the descendants, or a parse/read error. */
  datatype XmlFile = Parsed(descendants: seq<Element>) | Unparsable

  /** Namespace tiers searched for `IssueDate`, in order: none, `cbc`, `ubl`. */
  const DATE_TIERS: seq<string> := [NO_NS, CBC_NS, INVOICE_NS]

  /** Un-namespaced tags tried when the tiers give no usable text. */
  const FALLBACK_DATE_TAGS: seq<string> :=
    ["IssueDate", "D\U{fc}zenlemeTarihi", "d\U{fc}zenlemetarihi", "BelgeTarihi", "belgetarihi"]

  predicate HasTag(e: Element, ns: string, local: string) { e.ns == ns && e.local == local }

  /** The text of the first descendant with the tag, if there is one
      (`root.find('.//tag')`, or `findall(...)[0]`). */
  function FindText(es: seq<Element>, ns: string, local: string): (r: Option<string>)
    ensures r.Some? <==> exists i :: 0 <= i < |es| && HasTag(es[i], ns, local)
  {
    if es == [] then None
    else if HasTag(es[0], ns, local) then Some(es[0].text)
    else
      var r := FindText(es[1..], ns, local);
      assert forall i :: 1 <= i < |es| ==> es[i] == es[1..][i - 1];
      r
  }

  /** The search returns the first match in document order. */
  lemma {:induction false} FindTextFirst(es: seq<Element>, ns: string, local: string, i: nat)
    requires i < |es| && HasTag(es[i], ns, local)
    requires forall j :: 0 <= j < i ==> !HasTag(es[j], ns, local)
    ensures FindText(es, ns, local) == Some(es[i].text)
  {
    if i > 0 {
      assert !HasTag(es[0], ns, local);
      assert forall j :: 0 <= j < i - 1 ==> es[1..][j] == es[j + 1];
      FindTextFirst(es[1..], ns, local, i - 1);
    }
  }

  /** Text of the first `IssueDate` in the first tier that has any. */
  function TierText(es: seq<Element>, tiers: seq<string>): Option<string>
  {
    if tiers == [] then None
    else match FindText(es, tiers[0], "IssueDate")
      case Some(t) => Some(t)
      case None => TierText(es, tiers[1..])
  }

  /** Text of the first element of the first fallback tag that has any. */
  function FallbackText(es: seq<Element>, tags: seq<string>): Option<string>
  {
    if tags == [] then None
    else match FindText(es, NO_NS, tags[0])
      case Some(t) => Some(t)
      case None => FallbackText(es, tags[1..])
  }

  /** The date text the extractor settles on; absent or "" means none. */
  function IssueDateText(es: seq<Element>): Option<string>
  {
    var t := TierText(es, DATE_TIERS);
    if t.Some? && t.value != "" then t else FallbackText(es, FALLBACK_DATE_TAGS)
  }

  /** The shape dispatch: `YYYY-MM-DD` when the text has a `-`, else
      `DD.MM.YYYY` when it has a `.`, else no date. */
  function ParseIssueDate(t: string): Option<Date>
  {
    if '-' in t then Strptime(t, ISO_FORMAT)
    else if '.' in t then Strptime(t, DayFirstFormat('.'))
    else None
  }

  /** `extract_date_from_xml`. */
  function ExtractDateFromXml(x: XmlFile): Option<Date>
  {
    match x
    case Unparsable => None
    case Parsed(es) =>
      var t := IssueDateText(es);
      if t.None? || t.value == "" then None else ParseIssueDate(t.value)
  }

  /** `extract_evrak_id`: the stripped text of the first `cbc:ID`, accepted
      only when it is exactly 16 characters long. */
  function ExtractEvrakId(x: XmlFile): (r: Option<string>)
    ensures r.Some? ==> |r.value| == 16
    ensures r.Some? ==> !IsSpace(r.value[0]) && !IsSpace(r.value[15])
  {
    match x
    case Unparsable => None
    case Parsed(es) =>
      match FindText(es, CBC_NS, "ID")
      case None => None
      case Some(t) => var id := Strip(t); if |id| == 16 then Some(id) else None
  }

  // ---------------------------------------------------------------------
  // Properties

  /** The tiers are tried in order and the first tier with any `IssueDate`
      decides: when tier `k` is the first to have one and its first element
      has text, the date is that text's parse, whatever the other tiers and
      the fallback tags hold. */
  lemma {:induction false} TierDecides(es: seq<Element>, k: nat, i: nat)
    requires k < |DATE_TIERS| && i < |es|
    requires forall j, l :: 0 <= j < |es| && 0 <= l < k ==> !HasTag(es[j], DATE_TIERS[l], "IssueDate")
    requires HasTag(es[i], DATE_TIERS[k], "IssueDate")
    requires forall j :: 0 <= j < i ==> !HasTag(es[j], DATE_TIERS[k], "IssueDate")
    requires es[i].text != ""
    ensures ExtractDateFromXml(Parsed(es)) == ParseIssueDate(es[i].text)
  {
    TierTextFrom(es, DATE_TIERS, k, i);
  }

  lemma {:induction false} TierTextFrom(es: seq<Element>, tiers: seq<string>, k: nat, i: nat)
    requires k < |tiers| && i < |es|
    requires forall j, l :: 0 <= j < |es| && 0 <= l < k ==> !HasTag(es[j], tiers[l], "IssueDate")
    requires HasTag(es[i], tiers[k], "IssueDate")
    requires forall j :: 0 <= j < i ==> !HasTag(es[j], tiers[k], "IssueDate")
    ensures TierText(es, tiers) == Some(es[i].text)
  {
    if k == 0 {
      FindTextFirst(es, tiers[0], "IssueDate", i);
    } else {
      assert FindText(es, tiers[0], "IssueDate").None?;
      assert forall l :: 0 <= l < k - 1 ==> tiers[1..][l] == tiers[l + 1];
      TierTextFrom(es, tiers[1..], k - 1, i);
    }
  }

  /** When the tiers give no text (none has an `IssueDate`, or the first one
      found is empty), the fallback tags are tried in order and the first tag
      with any element decides, even when that element is empty. */
  lemma {:induction false} FallbackDecides(es: seq<Element>, k: nat, i: nat)
    requires TierText(es, DATE_TIERS) == None || TierText(es, DATE_TIERS) == Some("")
    requires k < |FALLBACK_DATE_TAGS| && i < |es|
    requires forall j, l :: 0 <= j < |es| && 0 <= l < k ==> !HasTag(es[j], NO_NS, FALLBACK_DATE_TAGS[l])
    requires HasTag(es[i], NO_NS, FALLBACK_DATE_TAGS[k])
    requires forall j :: 0 <= j < i ==> !HasTag(es[j], NO_NS, FALLBACK_DATE_TAGS[k])
    ensures ExtractDateFromXml(Parsed(es)) == if es[i].text == "" then None else ParseIssueDate(es[i].text)
  {
    FallbackTextFrom(es, FALLBACK_DATE_TAGS, k, i);
  }

  lemma {:induction false} FallbackTextFrom(es: seq<Element>, tags: seq<string>, k: nat, i: nat)
    requires k < |tags| && i < |es|
    requires forall j, l :: 0 <= j < |es| && 0 <= l < k ==> !HasTag(es[j], NO_NS, tags[l])
    requires HasTag(es[i], NO_NS, tags[k])
    requires forall j :: 0 <= j < i ==> !HasTag(es[j], NO_NS, tags[k])
    ensures FallbackText(es, tags) == Some(es[i].text)
  {
    if k == 0 {
      FindTextFirst(es, NO_NS, tags[0], i);
    } else {
      assert FindText(es, NO_NS, tags[0]).None?;
      assert forall l :: 0 <= l < k - 1 ==> tags[1..][l] == tags[l + 1];
      FallbackTextFrom(es, tags[1..], k - 1, i);
    }
  }

  /** Both accepted shapes read back every calendar date written in them. */
  lemma ParseIssueDateShapes(d: Date)
    ensures ParseIssueDate(IsoText(d)) == Some(d)
    ensures ParseIssueDate(DayFirstText(d, '.')) == Some(d)
  {
    ParseIsoShape(d);
    ParseDottedShape(d);
  }

  lemma ParseIsoShape(d: Date)
    ensures ParseIssueDate(IsoText(d)) == Some(d)
  {
    IsoRoundTrip(d);
    assert IsoText(d)[4] == '-';
  }

  lemma ParseDottedShape(d: Date)
    ensures ParseIssueDate(DayFirstText(d, '.')) == Some(d)
  {
    DayFirstRoundTrip(d, '.');
    var t := DayFirstText(d, '.');
    assert t[2] == '.';
    NoDashInDigits(TwoDigits(d.day));
    NoDashInDigits(TwoDigits(d.month));
    NoDashInDigits(FourDigits(d.year));
    assert '-' !in t;
  }

  lemma NoDashInDigits(s: string)
    requires AllDigits(s)
    ensures '-' !in s
  {
  }

  /** A document whose only element is a `cbc:IssueDate` is dated by that element's text. */
  lemma SingleCbcIssueDate(t: string)
    requires t != ""
    ensures ExtractDateFromXml(Parsed([Element(CBC_NS, "IssueDate", t)])) == ParseIssueDate(t)
  {
    var es := [Element(CBC_NS, "IssueDate", t)];
    assert |CBC_NS| > 0;
    assert !HasTag(es[0], DATE_TIERS[0], "IssueDate");
    TierDecides(es, 1, 0);
  }

  /** Worked case: `2024-03-15` in `cbc:IssueDate` gives 15 March 2024. */
  lemma IsoIssueDateExample(t: string)
    requires t == "2024-03-15"
    ensures ExtractDateFromXml(Parsed([Element(CBC_NS, "IssueDate", t)])) == Some(Ymd(2024, 3, 15))
  {
    IsoTextExample(t);
    ParseIssueDateShapes(Ymd(2024, 3, 15));
    SingleCbcIssueDate(t);
  }

  lemma IsoTextExample(t: string)
    requires t == "2024-03-15"
    ensures IsoText(Ymd(2024, 3, 15)) == t
  {
  }

  /** Worked case: `15.03.2024` gives the same date through the day-first shape. */
  lemma DottedIssueDateExample(t: string)
    requires t == "15.03.2024"
    ensures ExtractDateFromXml(Parsed([Element(CBC_NS, "IssueDate", t)])) == Some(Ymd(2024, 3, 15))
  {
    DottedTextExample(t);
    ParseIssueDateShapes(Ymd(2024, 3, 15));
    SingleCbcIssueDate(t);
  }

  lemma DottedTextExample(t: string)
    requires t == "15.03.2024"
    ensures DayFirstText(Ymd(2024, 3, 15), '.') == t
  {
  }

  /** The identifier is the stripped text of the first `cbc:ID` when that
      has exactly 16 characters, and absent otherwise. */
  lemma EvrakIdIffSixteen(es: seq<Element>, i: nat)
    requires i < |es| && HasTag(es[i], CBC_NS, "ID")
    requires forall j :: 0 <= j < i ==> !HasTag(es[j], CBC_NS, "ID")
    ensures ExtractEvrakId(Parsed(es)) == if |Strip(es[i].text)| == 16 then Some(Strip(es[i].text)) else None
  {
    FindTextFirst(es, CBC_NS, "ID", i);
  }

  /** Whitespace around the identifier is dropped: 16 characters between
      two runs of whitespace are the identifier. */
  lemma PaddedIdAccepted(front: string, core: string, back: string)
    requires AllSpace(front) && AllSpace(back)
    requires |core| == 16 && !IsSpace(core[0]) && !IsSpace(core[15])
    ensures ExtractEvrakId(Parsed([Element(CBC_NS, "ID", front + core + back)])) == Some(core)
  {
    StripPadded(front, core, back);
    EvrakIdIffSixteen([Element(CBC_NS, "ID", front + core + back)], 0);
  }

  /** Any other length, once the surrounding whitespace is dropped, gives no
      identifier. */
  lemma PaddedIdRejected(front: string, core: string, back: string)
    requires AllSpace(front) && AllSpace(back)
    requires |core| != 16 && (core != [] ==> !IsSpace(core[0]) && !IsSpace(core[|core| - 1]))
    ensures ExtractEvrakId(Parsed([Element(CBC_NS, "ID", front + core + back)])) == None
  {
    StripPadded(front, core, back);
    EvrakIdIffSixteen([Element(CBC_NS, "ID", front + core + back)], 0);
  }

  /** Without any `cbc:ID` there is no identifier. */
  lemma NoIdElementNoEvrakId(es: seq<Element>)
    requires forall j :: 0 <= j < |es| ==> !HasTag(es[j], CBC_NS, "ID")
    ensures ExtractEvrakId(Parsed(es)) == None
  {
  }
}
