/** The date heuristic for an HTML invoice (`extract_invoice_dates`): dates
    written next to a Turkish date label win over unlabeled dates, and among
    the winners the latest one is taken. The text is what BeautifulSoup's
    `get_text()` returns (or the raw file when parsing fails); it is given. */
module HtmlDates {
  import opened Wrappers
  import opened Text
  import opened Dates
  import opened Seqs

  /** The labels, in the order they are searched. */
  const PRIMARY_KEYWORDS: seq<string> := [
    "D\U{fc}zenleme Tarihi", "D\U{fc}zenleme tarihi", "d\U{fc}zenleme tarihi",
    "Belge Tarihi", "Belge tarihi", "belge tarihi",
    "Fatura Tarihi", "Fatura tarihi", "fatura tarihi",
    "D\U{fc}zenlenme Tarihi", "e-Fatura Tarihi", "e-Ar\U{15f}iv Fatura Tarihi",
    "Tarih", "tarih", "TAR\U{130}H"
  ]

  /** The separators of the three date shapes `dd.mm.yyyy`, `dd/mm/yyyy`, `dd-mm-yyyy`. */
  const DATE_SEPARATORS: seq<char> := ['.', '/', '-']

  /** One of the regular expressions the heuristic runs:
      `Labeled(kw, s)` is `kw\s*[:=\-]?\s*(\d{1,2}s\d{1,2}s\d{4})` under IGNORECASE,
      `Unlabeled(s)` is `\b(\d{1,2}s\d{1,2}s\d{4})\b`. */
  datatype Pattern = Labeled(keyword: string, sep: char) | Unlabeled(sep: char)

  /** A successful match: the captured date text and where the match ends. */
  datatype Match = Match(capture: string, end: nat)

  /** The keyword patterns in search order: every label with each separator. */
  function LabeledPatterns(kws: seq<string>): (ps: seq<Pattern>)
    ensures |ps| == 3 * |kws|
  {
    seq(3 * |kws|, i requires 0 <= i < 3 * |kws| => Labeled(kws[i / 3], DATE_SEPARATORS[i % 3]))
  }

  const UNLABELED_PATTERNS: seq<Pattern> := [Unlabeled('.'), Unlabeled('/'), Unlabeled('-')]

  // ---------------------------------------------------------------------
  // Matching at one position

  /** End of the whitespace run starting at `i` (`\s*` is greedy). */
  function SkipSpaces(t: string, i: nat): (j: nat)
    requires i <= |t|
    ensures i <= j <= |t|
    ensures j < |t| ==> !IsSpace(t[j])
    decreases |t| - i
  {
    if i < |t| && IsSpace(t[i]) then SkipSpaces(t, i + 1) else i
  }

  /** Length of the digit run starting at `i`. */
  function DigitRun(t: string, i: nat): (n: nat)
    requires i <= |t|
    ensures i + n <= |t|
    ensures i + n < |t| ==> !IsDigit(t[i + n])
    decreases |t| - i
  {
    if i < |t| && IsDigit(t[i]) then 1 + DigitRun(t, i + 1) else 0
  }

  /** Where `\d{1,2}s\d{1,2}s\d{4}` ends when it matches at `i`. A field of
      one or two digits must be followed by the separator, so a run of three
      or more digits never matches, whatever the backtracking. */
  function DateShapeEnd(t: string, i: nat, sep: char): (r: Option<nat>)
    requires i <= |t|
    ensures r.Some? ==> i + 8 <= r.value <= |t|
  {
    var a := DigitRun(t, i);
    if !(1 <= a <= 2 && i + a < |t| && t[i + a] == sep) then None
    else
      var j := i + a + 1;
      var b := DigitRun(t, j);
      if !(1 <= b <= 2 && j + b < |t| && t[j + b] == sep) then None
      else
        var y := j + b + 1;
        if DigitRun(t, y) >= 4 then Some(y + 4) else None
  }

  /** The keyword occurs at `p`, ignoring the case of ASCII letters. */
  predicate KeywordAt(t: string, p: nat, kw: string)
  {
    p + |kw| <= |t| && forall j :: 0 <= j < |kw| ==> Lower(t[p + j]) == Lower(kw[j])
  }

  /** The characters `[:=\-]` admits between a label and its date. */
  predicate IsLabelMark(c: char) { c == ':' || c == '=' || c == '-' }

  /** Where the date starts after a label ending at `i`: `\s*[:=\-]?\s*`,
      each part greedy. */
  function DateStart(t: string, i: nat): (c: nat)
    requires i <= |t|
    ensures i <= c <= |t|
  {
    var a := SkipSpaces(t, i);
    if a < |t| && IsLabelMark(t[a]) then SkipSpaces(t, a + 1) else a
  }

  /** The date shape matched at `c`, with its text as the capture. */
  function ShapeMatch(t: string, c: nat, sep: char): (r: Option<Match>)
    requires c <= |t|
    ensures r.Some? ==> c < r.value.end <= |t|
  {
    match DateShapeEnd(t, c, sep)
    case None => None
    case Some(e) => Some(Match(t[c..e], e))
  }

  /** The whitespace run starting at `i` is whitespace. */
  lemma {:induction false} SkipSpacesSpan(t: string, i: nat, k: nat)
    requires i <= |t| && i <= k < SkipSpaces(t, i)
    ensures IsSpace(t[k])
    decreases |t| - i
  {
    if i < k {
      SkipSpacesSpan(t, i + 1, k);
    }
  }

  /** The digit run starting at `i` is digits. */
  lemma {:induction false} DigitRunSpan(t: string, i: nat, k: nat)
    requires i <= |t| && i <= k < i + DigitRun(t, i)
    ensures IsDigit(t[k])
    decreases |t| - i
  {
    if i < k {
      DigitRunSpan(t, i + 1, k);
    }
  }

  /** A matched date shape is made of digits and the separator only, and
      starts with a digit. */
  lemma DateShapeSpan(t: string, i: nat, sep: char, k: nat)
    requires i <= |t| && DateShapeEnd(t, i, sep).Some? && i <= k < DateShapeEnd(t, i, sep).value
    ensures IsDigit(t[k]) || t[k] == sep
    ensures k == i ==> IsDigit(t[k])
  {
    var a := DigitRun(t, i);
    var j := i + a + 1;
    var b := DigitRun(t, j);
    var y := j + b + 1;
    if k < i + a {
      DigitRunSpan(t, i, k);
    } else if j <= k < j + b {
      DigitRunSpan(t, j, k);
    } else if y <= k {
      DigitRunSpan(t, y, k);
    }
  }

  /** Between a label and its date there are only spaces and at most one of `:=-`. */
  lemma DateStartSpan(t: string, i: nat, k: nat)
    requires i <= |t| && i <= k < DateStart(t, i)
    ensures IsSpace(t[k]) || IsLabelMark(t[k])
  {
    var a := SkipSpaces(t, i);
    if k < a {
      SkipSpacesSpan(t, i, k);
    } else if k > a {
      SkipSpacesSpan(t, a + 1, k);
    }
  }

  /** The match of the pattern that starts at `p`, if any. */
  function MatchAt(t: string, p: nat, pat: Pattern): (r: Option<Match>)
    requires p <= |t|
    ensures r.Some? ==> p < r.value.end <= |t|
  {
    match pat
    case Labeled(kw, sep) =>
      if !KeywordAt(t, p, kw) then None else ShapeMatch(t, DateStart(t, p + |kw|), sep)
    case Unlabeled(sep) =>
      if p > 0 && IsWordChar(t[p - 1]) then None
      else
        var m := ShapeMatch(t, p, sep);
        if m.Some? && m.value.end < |t| && IsWordChar(t[m.value.end]) then None else m
  }

  /** `re.findall` from position `from`: after a match the search resumes
      where that match ended. */
  function FindAll(t: string, pat: Pattern, from: nat): seq<string>
    requires from <= |t|
    decreases |t| - from
  {
    if from == |t| then []
    else match MatchAt(t, from, pat)
      case Some(m) => [m.capture] + FindAll(t, pat, m.end)
      case None => FindAll(t, pat, from + 1)
  }

  /** The captures of each pattern in turn. */
  function Captures(t: string, ps: seq<Pattern>): seq<string>
  {
    if ps == [] then [] else Captures(t, ps[..|ps| - 1]) + FindAll(t, ps[|ps| - 1], 0)
  }

  // ---------------------------------------------------------------------
  // From captured text to a list of distinct dates

  function FirstParse(c: string, fmts: seq<Format>): Option<Date>
  {
    if fmts == [] then None
    else match Strptime(c, fmts[0])
      case Some(d) => Some(d)
      case None => FirstParse(c, fmts[1..])
  }

  /** The inner `for fmt in date_formats` loop: the first format that parses. */
  function ParseCapture(c: string): Option<Date>
  {
    FirstParse(c, HTML_FORMATS)
  }

  predicate NoDuplicates(ds: seq<Date>)
  {
    forall i, j :: 0 <= i < j < |ds| ==> ds[i] != ds[j]
  }

  /** How a captured text is read as a date. The heuristic reads it with
      `ParseCapture`; the list building below is stated for any reading. */
  type Parser = string -> Option<Date>

  /** One step of the collection: append the parsed date unless it failed
      to parse or is already listed. */
  function AddDate(ds: seq<Date>, d: Option<Date>): seq<Date>
  {
    if d.Some? && d.value !in ds then ds + [d.value] else ds
  }

  /** The candidate list built from the captures in order. */
  function Collect(caps: seq<string>, parse: Parser): seq<Date>
  {
    if caps == [] then [] else AddDate(Collect(caps[..|caps| - 1], parse), parse(caps[|caps| - 1]))
  }

  lemma CollectSnoc(caps: seq<string>, c: string, parse: Parser)
    ensures Collect(caps + [c], parse) == AddDate(Collect(caps, parse), parse(c))
  {
    assert (caps + [c])[..|caps|] == caps;
  }

  /** The candidate list never holds a date twice. */
  lemma {:induction false} CollectNoDuplicates(caps: seq<string>, parse: Parser)
    ensures NoDuplicates(Collect(caps, parse))
  {
    if caps != [] {
      CollectNoDuplicates(caps[..|caps| - 1], parse);
    }
  }

  /** The candidate list holds exactly the dates some capture parses to. */
  lemma {:induction false} CollectMembers(caps: seq<string>, parse: Parser, d: Date)
    ensures d in Collect(caps, parse) <==> exists i :: 0 <= i < |caps| && parse(caps[i]) == Some(d)
  {
    if caps != [] {
      var front := caps[..|caps| - 1];
      CollectMembers(front, parse, d);
      assert forall i :: 0 <= i < |front| ==> caps[i] == front[i];
    }
  }

  /** The heuristic's answer: the latest labeled date when there is one,
      else the latest unlabeled date, else none. */
  function InvoiceDate(t: string): Option<Date>
  {
    var primary := PrimaryDates(t);
    if primary != [] then Some(MaxDate(primary))
    else
      var other := FallbackDates(t);
      if other != [] then Some(MaxDate(other)) else None
  }

  /** `extract_invoice_dates` on a file: the page's text, or `None` when the
      file cannot be opened, in which case there is no date. */
  function InvoiceDateOfFile(page: Option<string>): (r: Option<Date>)
    ensures page.None? ==> r.None?
    ensures page.Some? ==> r == InvoiceDate(page.value)
  {
    match page
    case None => None
    case Some(t) => InvoiceDate(t)
  }

  /** The `primary_dates` list. */
  function PrimaryDates(t: string): seq<Date>
  {
    Collect(Captures(t, LabeledPatterns(PRIMARY_KEYWORDS)), ParseCapture)
  }

  /** The `all_other_dates` list of the fallback search. */
  function FallbackDates(t: string): seq<Date>
  {
    Collect(Captures(t, UNLABELED_PATTERNS), ParseCapture)
  }

  lemma CapturesStep(t: string, ps: seq<Pattern>, n: nat)
    requires n < |ps|
    ensures Captures(t, ps[..n + 1]) == Captures(t, ps[..n]) + FindAll(t, ps[n], 0)
  {
    assert ps[..n + 1][..n] == ps[..n];
  }

  lemma LabeledPatternAt(kws: seq<string>, k: nat, s: nat)
    requires k < |kws| && s < 3
    ensures 3 * k + 3 <= |LabeledPatterns(kws)|
    ensures LabeledPatterns(kws)[3 * k + s] == Labeled(kws[k], DATE_SEPARATORS[s])
  {
    assert (3 * k + s) / 3 == k && (3 * k + s) % 3 == s;
  }

  /** The loop over one pattern's matches: each capture that parses to a
      date not yet listed is appended. */
  method AddCaptures(ds: seq<Date>, caps: seq<string>, parse: Parser, ghost done: seq<string>)
    returns (ds': seq<Date>)
    requires ds == Collect(done, parse)
    ensures ds' == Collect(done + caps, parse)
  {
    ds' := ds;
    assert done + caps[..0] == done;
    for j := 0 to |caps|
      invariant ds' == Collect(done + caps[..j], parse)
    {
      var d := parse(caps[j]);
      if d.Some? && d.value !in ds' {
        ds' := ds' + [d.value];
      }
      CollectSnoc(done + caps[..j], caps[j], parse);
      assert done + caps[..j + 1] == done + caps[..j] + [caps[j]];
    }
    assert caps[..|caps|] == caps;
  }

  /** The patterns tried for one label, in order. */
  function KeywordPatterns(keyword: string): (ps: seq<Pattern>)
    ensures |ps| == 3
  {
    [Labeled(keyword, '.'), Labeled(keyword, '/'), Labeled(keyword, '-')]
  }

  lemma LabeledPatternsBlock(kws: seq<string>, k: nat)
    requires k < |kws|
    ensures 3 * k + 3 <= |LabeledPatterns(kws)|
    ensures LabeledPatterns(kws)[..3 * k + 3] == LabeledPatterns(kws)[..3 * k] + KeywordPatterns(kws[k])
  {
    var all := LabeledPatterns(kws);
    LabeledPatternAt(kws, k, 0);
    LabeledPatternAt(kws, k, 1);
    LabeledPatternAt(kws, k, 2);
  }

  lemma {:induction false} CapturesAppend(t: string, ps: seq<Pattern>, qs: seq<Pattern>)
    ensures Captures(t, ps + qs) == Captures(t, ps) + Captures(t, qs)
    decreases |qs|
  {
    if qs != [] {
      var front := qs[..|qs| - 1];
      assert (ps + qs)[..|ps + qs| - 1] == ps + front;
      CapturesAppend(t, ps, front);
    } else {
      assert ps + qs == ps;
    }
  }

  /** The search over a list of patterns, continuing a candidate list. */
  method ScanPatterns(text: string, patterns: seq<Pattern>, parse: Parser, ds: seq<Date>, ghost done: seq<string>)
    returns (ds': seq<Date>)
    requires ds == Collect(done, parse)
    ensures ds' == Collect(done + Captures(text, patterns), parse)
  {
    ds' := ds;
    assert done + Captures(text, patterns[..0]) == done;
    for s := 0 to |patterns|
      invariant ds' == Collect(done + Captures(text, patterns[..s]), parse)
    {
      ghost var before := Captures(text, patterns[..s]);
      var found := FindAll(text, patterns[s], 0);
      CapturesStep(text, patterns, s);
      ds' := AddCaptures(ds', found, parse, done + before);
      AppendAssoc(done, before, found);
    }
    assert patterns[..|patterns|] == patterns;
  }

  /** The labeled search: for each label, its three patterns in turn. */
  method ScanLabeled(text: string, keywords: seq<string>, parse: Parser) returns (primary: seq<Date>)
    ensures primary == Collect(Captures(text, LabeledPatterns(keywords)), parse)
  {
    primary := [];
    ghost var all := LabeledPatterns(keywords);
    for k := 0 to |keywords|
      invariant 3 * k <= |all|
      invariant primary == Collect(Captures(text, all[..3 * k]), parse)
    {
      var patterns := KeywordPatterns(keywords[k]);
      LabeledPatternsBlock(keywords, k);
      CapturesAppend(text, all[..3 * k], patterns);
      primary := ScanPatterns(text, patterns, parse, primary, Captures(text, all[..3 * k]));
    }
    assert all[..3 * |keywords|] == all;
  }

  /** The fallback search with the three unlabeled patterns. */
  method ScanUnlabeled(text: string, parse: Parser) returns (others: seq<Date>)
    ensures others == Collect(Captures(text, UNLABELED_PATTERNS), parse)
  {
    others := ScanPatterns(text, UNLABELED_PATTERNS, parse, [], []);
    assert [] + Captures(text, UNLABELED_PATTERNS) == Captures(text, UNLABELED_PATTERNS);
  }

  /** `extract_invoice_dates` on the document text. */
  method ExtractInvoiceDates(text: string) returns (date: Option<Date>)
    ensures date == InvoiceDate(text)
  {
    var primary := ScanLabeled(text, PRIMARY_KEYWORDS, ParseCapture);
    assert primary == PrimaryDates(text);
    if primary != [] {
      return Some(MaxDate(primary));
    }
    var others := ScanUnlabeled(text, ParseCapture);
    assert others == FallbackDates(text);
    if others == [] {
      return None;
    }
    return Some(MaxDate(others));
  }

  // ---------------------------------------------------------------------
  // What the search finds

  /** The pattern matches at `p` and captures `c`. */
  predicate CaptureAt(t: string, p: nat, pat: Pattern, c: string)
  {
    p <= |t| && MatchAt(t, p, pat).Some? && MatchAt(t, p, pat).value.capture == c
  }

  /** First character an ASCII letter that, ignoring case, no later character repeats. */
  predicate UniqueHead(kw: string)
  {
    |kw| > 0 && IsAsciiLetter(kw[0]) && forall j :: 0 < j < |kw| ==> Lower(kw[j]) != Lower(kw[0])
  }

  /** The patterns for which a match never contains the start of another. */
  predicate WellFormed(pat: Pattern)
  {
    match pat
    case Labeled(kw, sep) => UniqueHead(kw) && sep in DATE_SEPARATORS
    case Unlabeled(sep) => sep in DATE_SEPARATORS
  }

  // The labels checked three at a time, which keeps each proof small.
  lemma UniqueHeadsFrom0(k: nat)
    requires k < 3
    ensures UniqueHead(PRIMARY_KEYWORDS[k])
  {
  }

  lemma UniqueHeadsFrom3(k: nat)
    requires 3 <= k < 6
    ensures UniqueHead(PRIMARY_KEYWORDS[k])
  {
  }

  lemma UniqueHeadsFrom6(k: nat)
    requires 6 <= k < 9
    ensures UniqueHead(PRIMARY_KEYWORDS[k])
  {
  }

  lemma UniqueHeadsFrom9(k: nat)
    requires 9 <= k < 12
    ensures UniqueHead(PRIMARY_KEYWORDS[k])
  {
  }

  lemma UniqueHeadsFrom12(k: nat)
    requires 12 <= k < 15
    ensures UniqueHead(PRIMARY_KEYWORDS[k])
  {
  }

  /** No label can start again inside itself: its first letter, ignoring
      case, does not occur later in it. */
  lemma KeywordsHaveUniqueHeads()
    ensures forall k :: 0 <= k < |PRIMARY_KEYWORDS| ==> UniqueHead(PRIMARY_KEYWORDS[k])
  {
    forall k | 0 <= k < |PRIMARY_KEYWORDS|
      ensures UniqueHead(PRIMARY_KEYWORDS[k])
    {
      if k < 3 {
        UniqueHeadsFrom0(k);
      } else if k < 6 {
        UniqueHeadsFrom3(k);
      } else if k < 9 {
        UniqueHeadsFrom6(k);
      } else if k < 12 {
        UniqueHeadsFrom9(k);
      } else {
        UniqueHeadsFrom12(k);
      }
    }
  }

  /** Every pattern the heuristic runs is well formed. */
  lemma PatternsWellFormed()
    ensures forall i :: 0 <= i < |LabeledPatterns(PRIMARY_KEYWORDS)| ==> WellFormed(LabeledPatterns(PRIMARY_KEYWORDS)[i])
    ensures forall i :: 0 <= i < |UNLABELED_PATTERNS| ==> WellFormed(UNLABELED_PATTERNS[i])
  {
    KeywordsHaveUniqueHeads();
  }

  lemma SeparatorFacts(sep: char)
    requires sep in DATE_SEPARATORS
    ensures !IsDigit(sep) && !IsAsciiLetter(sep) && !IsWordChar(sep) && !IsSpace(sep)
  {
  }

  /** Between the end of a label and the end of its match there are only
      spaces, one of `:=-`, digits and the separator: no ASCII letter. */
  lemma LabeledTailHasNoLetter(t: string, p: nat, kw: string, sep: char, q: nat)
    requires p <= |t| && sep in DATE_SEPARATORS
    requires MatchAt(t, p, Labeled(kw, sep)).Some?
    requires p + |kw| <= q < MatchAt(t, p, Labeled(kw, sep)).value.end
    ensures !IsAsciiLetter(t[q])
  {
    SeparatorFacts(sep);
    var c := DateStart(t, p + |kw|);
    if q < c {
      DateStartSpan(t, p + |kw|, q);
    } else {
      DateShapeSpan(t, c, sep, q);
    }
  }

  /** A label whose head letter does not recur cannot match again inside
      the match of that label. */
  lemma NoLabeledMatchInside(t: string, kw: string, sep: char, p: nat, q: nat)
    requires UniqueHead(kw) && sep in DATE_SEPARATORS && p <= |t|
    requires MatchAt(t, p, Labeled(kw, sep)).Some?
    requires p < q < MatchAt(t, p, Labeled(kw, sep)).value.end
    ensures !KeywordAt(t, q, kw)
  {
    if q < p + |kw| {
      assert Lower(t[q]) == Lower(kw[q - p]);
    } else {
      LabeledTailHasNoLetter(t, p, kw, sep, q);
    }
    if q + |kw| <= |t| {
      assert Lower(t[q + 0]) != Lower(kw[0]);
    }
  }

  /** An unlabeled date cannot match again inside the match of one: every
      inner position follows a digit, or starts a too-short shape. */
  lemma NoUnlabeledMatchInside(t: string, sep: char, p: nat, q: nat)
    requires sep in DATE_SEPARATORS && p <= |t|
    requires MatchAt(t, p, Unlabeled(sep)).Some?
    requires p < q < MatchAt(t, p, Unlabeled(sep)).value.end
    ensures MatchAt(t, q, Unlabeled(sep)).None?
  {
    SeparatorFacts(sep);
    var a := DigitRun(t, p);
    var j := p + a + 1;
    var b := DigitRun(t, j);
    var y := j + b + 1;
    assert DateShapeEnd(t, p, sep) == Some(y + 4);
    assert DigitRun(t, y) >= 4;
    if q == j || q == y {
      assert DateShapeEnd(t, q, sep).None?;
    } else {
      if q - 1 < p + a {
        DigitRunSpan(t, p, q - 1);
      } else if q - 1 < j + b {
        DigitRunSpan(t, j, q - 1);
      } else {
        DigitRunSpan(t, y, q - 1);
      }
      assert IsWordChar(t[q - 1]);
    }
  }

  /** No match of a well-formed pattern starts strictly inside another match
      of the same pattern. */
  lemma NoMatchInside(t: string, pat: Pattern, p: nat)
    requires WellFormed(pat) && p <= |t| && MatchAt(t, p, pat).Some?
    ensures forall q :: p < q < MatchAt(t, p, pat).value.end ==> MatchAt(t, q, pat).None?
  {
    forall q | p < q < MatchAt(t, p, pat).value.end
      ensures MatchAt(t, q, pat).None?
    {
      match pat
      case Labeled(kw, sep) =>
        NoLabeledMatchInside(t, kw, sep, p, q);
      case Unlabeled(sep) =>
        NoUnlabeledMatchInside(t, sep, p, q);
    }
  }

  /** A later match of a well-formed pattern starts no earlier than the end
      of an earlier one. */
  lemma MatchEndsBefore(t: string, pat: Pattern, from: nat, p: nat)
    requires WellFormed(pat) && from < p <= |t|
    requires MatchAt(t, from, pat).Some? && MatchAt(t, p, pat).Some?
    ensures MatchAt(t, from, pat).value.end <= p
  {
    NoMatchInside(t, pat, from);
  }

  /** Every string `FindAll` returns is captured by a match at or after `from`. */
  lemma {:induction false} FindAllSound(t: string, pat: Pattern, from: nat, c: string)
    requires from <= |t| && c in FindAll(t, pat, from)
    ensures exists p :: from <= p <= |t| && CaptureAt(t, p, pat, c)
    decreases |t| - from
  {
    match MatchAt(t, from, pat)
    case Some(m) =>
      if c != m.capture {
        FindAllSound(t, pat, m.end, c);
      } else {
        assert CaptureAt(t, from, pat, c);
      }
    case None =>
      FindAllSound(t, pat, from + 1, c);
  }

  /** For a well-formed pattern, every match at or after `from` is found:
      skipping past a match loses nothing. */
  lemma {:induction false} FindAllComplete(t: string, pat: Pattern, from: nat, p: nat)
    requires WellFormed(pat) && from <= p <= |t| && MatchAt(t, p, pat).Some?
    ensures MatchAt(t, p, pat).value.capture in FindAll(t, pat, from)
    decreases |t| - from
  {
    if from < p {
      match MatchAt(t, from, pat)
      case Some(m) =>
        MatchEndsBefore(t, pat, from, p);
        FindAllComplete(t, pat, m.end, p);
      case None =>
        FindAllComplete(t, pat, from + 1, p);
    }
  }

  /** Every capture of a pattern list comes from a match of one of its patterns. */
  lemma {:induction false} CapturesSound(t: string, ps: seq<Pattern>, c: string)
    requires c in Captures(t, ps)
    ensures exists i, p :: 0 <= i < |ps| && 0 <= p <= |t| && CaptureAt(t, p, ps[i], c)
  {
    var n := |ps| - 1;
    var front := ps[..n];
    if c in Captures(t, front) {
      CapturesSound(t, front, c);
      var i, p :| 0 <= i < |front| && 0 <= p <= |t| && CaptureAt(t, p, front[i], c);
      assert front[i] == ps[i];
    } else {
      FindAllSound(t, ps[n], 0, c);
      var p :| 0 <= p <= |t| && CaptureAt(t, p, ps[n], c);
      assert CaptureAt(t, p, ps[n], c);
    }
  }

  /** Every match of every pattern of the list, wherever it starts, is among
      the captures. */
  lemma {:induction false} CapturesComplete(t: string, ps: seq<Pattern>, i: nat, p: nat)
    requires forall j :: 0 <= j < |ps| ==> WellFormed(ps[j])
    requires i < |ps| && p <= |t| && MatchAt(t, p, ps[i]).Some?
    ensures MatchAt(t, p, ps[i]).value.capture in Captures(t, ps)
  {
    var n := |ps| - 1;
    var front := ps[..n];
    var c := MatchAt(t, p, ps[i]).value.capture;
    var found := FindAll(t, ps[n], 0);
    assert Captures(t, ps) == Captures(t, front) + found;
    if i < n {
      assert front[i] == ps[i];
      CapturesComplete(t, front, i, p);
      assert c in Captures(t, front);
    } else {
      assert i == n;
      FindAllComplete(t, ps[i], 0, p);
    }
  }

  /** The pattern matches at `p` and its capture parses to `d`. */
  predicate DateAt(t: string, p: nat, pat: Pattern, d: Date)
  {
    p <= |t| && MatchAt(t, p, pat).Some? && ParseCapture(MatchAt(t, p, pat).value.capture) == Some(d)
  }

  ghost predicate IsCandidate(t: string, ps: seq<Pattern>, d: Date)
  {
    exists i, p :: 0 <= i < |ps| && 0 <= p <= |t| && DateAt(t, p, ps[i], d)
  }

  /** The candidate list of a pattern list holds exactly the dates some of
      its matches parse to. */
  lemma CandidatesIff(t: string, ps: seq<Pattern>, d: Date)
    requires forall i :: 0 <= i < |ps| ==> WellFormed(ps[i])
    ensures d in Collect(Captures(t, ps), ParseCapture) <==> IsCandidate(t, ps, d)
  {
    var caps := Captures(t, ps);
    CollectMembers(caps, ParseCapture, d);
    if d in Collect(caps, ParseCapture) {
      var k :| 0 <= k < |caps| && ParseCapture(caps[k]) == Some(d);
      CapturesSound(t, ps, caps[k]);
      var i, p :| 0 <= i < |ps| && 0 <= p <= |t| && CaptureAt(t, p, ps[i], caps[k]);
      assert DateAt(t, p, ps[i], d);
    }
    if IsCandidate(t, ps, d) {
      var i, p :| 0 <= i < |ps| && 0 <= p <= |t| && DateAt(t, p, ps[i], d);
      CapturesComplete(t, ps, i, p);
      var k :| 0 <= k < |caps| && caps[k] == MatchAt(t, p, ps[i]).value.capture;
    }
  }

  /** `d` is written right after one of the labels, in one of the three shapes. */
  ghost predicate IsLabeledDate(t: string, d: Date)
  {
    exists k, s, p :: 0 <= k < |PRIMARY_KEYWORDS| && 0 <= s < 3 && 0 <= p <= |t|
      && DateAt(t, p, Labeled(PRIMARY_KEYWORDS[k], DATE_SEPARATORS[s]), d)
  }

  /** `d` is written as a whole word in one of the three shapes. */
  ghost predicate IsUnlabeledDate(t: string, d: Date)
  {
    exists s, p :: 0 <= s < 3 && 0 <= p <= |t| && DateAt(t, p, Unlabeled(DATE_SEPARATORS[s]), d)
  }

  lemma LabeledCandidates(t: string, d: Date)
    ensures d in PrimaryDates(t) <==> IsLabeledDate(t, d)
  {
    var ps := LabeledPatterns(PRIMARY_KEYWORDS);
    PatternsWellFormed();
    CandidatesIff(t, ps, d);
    if IsCandidate(t, ps, d) {
      var i, p :| 0 <= i < |ps| && 0 <= p <= |t| && DateAt(t, p, ps[i], d);
      assert DateAt(t, p, Labeled(PRIMARY_KEYWORDS[i / 3], DATE_SEPARATORS[i % 3]), d);
    }
    if IsLabeledDate(t, d) {
      var k, s, p :| 0 <= k < |PRIMARY_KEYWORDS| && 0 <= s < 3 && 0 <= p <= |t|
        && DateAt(t, p, Labeled(PRIMARY_KEYWORDS[k], DATE_SEPARATORS[s]), d);
      LabeledPatternAt(PRIMARY_KEYWORDS, k, s);
      assert DateAt(t, p, ps[3 * k + s], d);
    }
  }

  lemma UnlabeledBridge(t: string, ps: seq<Pattern>, d: Date)
    requires |ps| == 3 && forall i :: 0 <= i < 3 ==> ps[i] == Unlabeled(DATE_SEPARATORS[i])
    ensures IsCandidate(t, ps, d) <==> IsUnlabeledDate(t, d)
  {
    if IsCandidate(t, ps, d) {
      var i, p :| 0 <= i < 3 && 0 <= p <= |t| && DateAt(t, p, ps[i], d);
      assert DateAt(t, p, Unlabeled(DATE_SEPARATORS[i]), d);
    }
    if IsUnlabeledDate(t, d) {
      var s, p :| 0 <= s < 3 && 0 <= p <= |t| && DateAt(t, p, Unlabeled(DATE_SEPARATORS[s]), d);
      assert DateAt(t, p, ps[s], d);
    }
  }

  lemma UnlabeledCandidates(t: string, d: Date)
    ensures d in FallbackDates(t) <==> IsUnlabeledDate(t, d)
  {
    PatternsWellFormed();
    CandidatesIff(t, UNLABELED_PATTERNS, d);
    UnlabeledBridge(t, UNLABELED_PATTERNS, d);
  }

  /** When some labeled date is present, the answer is the latest labeled
      date: unlabeled dates are ignored even when they are later. */
  lemma LabeledDateWins(t: string)
    requires exists d: Date :: IsLabeledDate(t, d)
    ensures InvoiceDate(t).Some?
    ensures IsLabeledDate(t, InvoiceDate(t).value)
    ensures forall d: Date :: IsLabeledDate(t, d) ==> NotAfter(d, InvoiceDate(t).value)
  {
    var primary := PrimaryDates(t);
    var d0: Date :| IsLabeledDate(t, d0);
    LabeledCandidates(t, d0);
    var m := MaxDate(primary);
    assert InvoiceDate(t) == Some(m);
    LabeledCandidates(t, m);
    forall d: Date | IsLabeledDate(t, d)
      ensures NotAfter(d, m)
    {
      LabeledCandidates(t, d);
    }
  }

  /** Without a labeled date, the answer is the latest unlabeled date, and
      there is no answer exactly when no unlabeled date is present either. */
  lemma UnlabeledFallback(t: string)
    requires forall d: Date :: !IsLabeledDate(t, d)
    ensures InvoiceDate(t).Some? <==> exists d: Date :: IsUnlabeledDate(t, d)
    ensures InvoiceDate(t).Some? ==> IsUnlabeledDate(t, InvoiceDate(t).value)
    ensures InvoiceDate(t).Some? ==> forall d: Date :: IsUnlabeledDate(t, d) ==> NotAfter(d, InvoiceDate(t).value)
  {
    var primary := PrimaryDates(t);
    var other := FallbackDates(t);
    if primary != [] {
      LabeledCandidates(t, primary[0]);
    }
    assert primary == [];
    if other != [] {
      var m := MaxDate(other);
      assert InvoiceDate(t) == Some(m);
      UnlabeledCandidates(t, m);
      forall d: Date | IsUnlabeledDate(t, d)
        ensures NotAfter(d, m)
      {
        UnlabeledCandidates(t, d);
      }
    } else {
      assert InvoiceDate(t) == None;
      forall d: Date | IsUnlabeledDate(t, d)
        ensures false
      {
        UnlabeledCandidates(t, d);
      }
    }
  }

  /** Labels that differ only in the case of ASCII letters match at the
      same places with the same captures, so listing case variants of a
      label adds no candidate that the first variant does not give. */
  lemma CaseVariantsMatchAlike(t: string, p: nat, kw1: string, kw2: string, sep: char)
    requires p <= |t| && |kw1| == |kw2|
    requires forall j :: 0 <= j < |kw1| ==> Lower(kw1[j]) == Lower(kw2[j])
    ensures MatchAt(t, p, Labeled(kw1, sep)) == MatchAt(t, p, Labeled(kw2, sep))
  {
    assert KeywordAt(t, p, kw1) <==> KeywordAt(t, p, kw2);
  }

  /** `Düzenleme Tarihi` and `düzenleme tarihi` are such variants. */
  lemma DuzenlemeVariants(t: string, p: nat, sep: char)
    requires p <= |t|
    ensures MatchAt(t, p, Labeled(PRIMARY_KEYWORDS[0], sep)) == MatchAt(t, p, Labeled(PRIMARY_KEYWORDS[2], sep))
  {
    CaseVariantsMatchAlike(t, p, PRIMARY_KEYWORDS[0], PRIMARY_KEYWORDS[2], sep);
  }

  /** A label glued to a following letter does not match: `Tarih` does not
      match inside `Tarihi: 01.02.2024`, which is why the longer labels are
      listed separately. */
  lemma LabelNeedsBoundary(t: string, p: nat, kw: string, sep: char)
    requires p + |kw| < |t| && IsAsciiLetter(t[p + |kw|])
    ensures MatchAt(t, p, Labeled(kw, sep)).None?
  {
    assert !IsSpace(t[p + |kw|]);
  }
}
