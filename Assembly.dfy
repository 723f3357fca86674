/** Output assembly of `process_files_thread`: merging the converted PDFs
    into one file or copying them into a fresh output directory, with the
    numbered names that avoid overwriting anything that exists. What exists
    on disk is a set of paths; the timestamp is a parameter. */
module Assembly {
  import opened Wrappers
  import opened Text
  import opened Paths
  import opened Dates
  import opened Conversion
  import opened Ordering

  /** The user's choices: merge into one PDF, sort by date, direction. */
  datatype Settings = Settings(merge: bool, sortByDate: bool, order: SortOrder)

  /** `pdf_files`: the converted PDFs in conversion order. */
  function PdfFiles(infos: seq<PdfInfo>): (ps: seq<Path>)
    ensures |ps| == |infos| && forall i :: 0 <= i < |infos| ==> ps[i] == infos[i].pdf
  {
    seq(|infos|, i requires 0 <= i < |infos| => infos[i].pdf)
  }

  /** Merging applies only when enabled and there is more than one PDF. */
  predicate MergeMode(s: Settings, infos: seq<PdfInfo>)
  {
    s.merge && |infos| > 1
  }

  /** `pdf_files_to_merge`. */
  function MergeOrder(s: Settings, infos: seq<PdfInfo>): seq<Path>
  {
    if s.sortByDate then PdfFiles(SortByDate(s.order, infos)) else PdfFiles(infos)
  }

  // ---------------------------------------------------------------------
  // Numbered names

  /** A preferred path (number 0) followed by numbered variants 1, 2, ... */
  type Candidates = nat -> Path

  /** The numbered variants are pairwise distinct. */
  ghost predicate VariantsDistinct(c: Candidates)
  {
    forall i: nat, j: nat :: 1 <= i < j ==> c(i) != c(j)
  }

  /** `path` is what a `while os.path.exists(...)` loop over `c` ends with:
      the first candidate that does not exist. */
  ghost predicate IsFirstFree(c: Candidates, existing: set<Path>, path: Path)
  {
    exists k: nat :: path == c(k) && path !in existing && forall j: nat :: j < k ==> c(j) in existing
  }

  /** The series `first`, then `dir` joined with `pre + n + post` for n >= 1. */
  function Numbered(dir: Path, first: string, pre: string, post: string): (c: Candidates)
    ensures c(0) == Join(dir, first)
    ensures forall n: nat :: n >= 1 ==> c(n) == Join(dir, pre + NatToString(n) + post)
  {
    (n: nat) => if n == 0 then Join(dir, first) else Join(dir, pre + NatToString(n) + post)
  }

  lemma NumberedVariantsDistinct(dir: Path, first: string, pre: string, post: string)
    ensures VariantsDistinct(Numbered(dir, first, pre, post))
  {
    var c := Numbered(dir, first, pre, post);
    forall i: nat, j: nat | 1 <= i < j
      ensures c(i) != c(j)
    {
      JoinInjective(dir, pre + NatToString(i) + post, pre + NatToString(j) + post);
      AffixInjective(pre, i, j, post);
    }
  }

  /** A collision loop: the preferred path, then variant 1, 2, ... until one
      does not exist. */
  method FirstFree(c: Candidates, existing: set<Path>) returns (path: Path)
    requires VariantsDistinct(c)
    ensures IsFirstFree(c, existing, path)
  {
    path := c(0);
    var cnt: nat := 1;
    ghost var tried: set<Path> := {};
    while path in existing
      invariant path == c(cnt - 1)
      invariant forall j: nat :: j < cnt - 1 ==> c(j) in existing
      invariant |tried| == cnt - 1
      invariant tried <= existing + {path}
      invariant forall j: nat :: cnt <= j ==> c(j) !in tried
      decreases |existing| + 1 - |tried|
    {
      SubsetSize(tried, existing);
      tried := tried + {c(cnt)};
      path := c(cnt);
      cnt := cnt + 1;
    }
  }

  // ---------------------------------------------------------------------
  // The names

  const MERGED_PREFIX: string := "birlesik_faturalar_"
  const OUTPUT_PREFIX: string := "faturalar_"

  function OrderText(o: SortOrder): string
  {
    if o == Asc then "eskiden_yeniye" else "yeniden_eskiye"
  }

  /** The merged file's preferred name. */
  function MergedName(s: Settings, ts: string): string
  {
    if s.sortByDate then MERGED_PREFIX + OrderText(s.order) + "_" + ts + ".pdf"
    else MERGED_PREFIX + ts + ".pdf"
  }

  /** The merged file's candidates; the numbered variants leave out the
      sort direction. */
  function MergedCandidates(outDir: Path, s: Settings, ts: string): Candidates
  {
    Numbered(outDir, MergedName(s, ts), MERGED_PREFIX + ts + "_", ".pdf")
  }

  /** The output directory's candidates in copy mode. */
  function OutputDirCandidates(outDir: Path, ts: string): Candidates
  {
    Numbered(outDir, OUTPUT_PREFIX + ts, OUTPUT_PREFIX + ts + "_", "")
  }

  /** The copy's preferred name for the `i`-th converted PDF: its
      identifier, else its date and position, else its position. */
  function TargetName(i: nat, info: PdfInfo): string
  {
    if info.evrakId.Some? && info.evrakId.value != "" then info.evrakId.value + ".pdf"
    else if info.date.Some? then "fatura_" + CompactText(info.date.value) + "_" + NatToString(i + 1) + ".pdf"
    else "fatura_" + NatToString(i + 1) + ".pdf"
  }

  /** The parts of a name built without an identifier: the counter sits
      after `fatura_<date>_` (16 characters) or after `fatura_` (7), and
      the name ends in `.pdf`. */
  lemma TargetNameParts(i: nat, info: PdfInfo)
    requires info.evrakId.None? || info.evrakId.value == ""
    ensures var name, n := TargetName(i, info), NatToString(i + 1);
      && name[|name| - 4..] == ".pdf"
      && (info.date.Some? ==> |name| == 20 + |n| && name[15] == '_' && name[16..|name| - 4] == n)
      && (info.date.None? ==> |name| == 11 + |n| && name[7..|name| - 4] == n)
  {
    var n := NatToString(i + 1);
    if info.date.Some? {
      var pre := "fatura_" + CompactText(info.date.value) + "_";
      assert |pre| == 16 && pre[15] == '_';
      assert TargetName(i, info) == pre + n + ".pdf";
    } else {
      assert TargetName(i, info) == "fatura_" + n + ".pdf";
    }
  }

  /** Without identifiers, PDFs at different positions get different
      preferred names, whatever their dates. */
  lemma TargetNamesDistinct(i: nat, a: PdfInfo, j: nat, b: PdfInfo)
    requires i != j
    requires a.evrakId.None? || a.evrakId.value == ""
    requires b.evrakId.None? || b.evrakId.value == ""
    ensures TargetName(i, a) != TargetName(j, b)
  {
    var x, y := TargetName(i, a), TargetName(j, b);
    TargetNameParts(i, a);
    TargetNameParts(j, b);
    NatToStringInjective(i + 1, j + 1);
    if x == y {
      if a.date.Some? && b.date.None? {
        UndatedHasNoUnderscore(y, NatToString(j + 1));
      } else if a.date.None? && b.date.Some? {
        UndatedHasNoUnderscore(x, NatToString(i + 1));
      }
    }
  }

  /** Past `fatura_`, an undated name holds digits and `.pdf` only. */
  lemma UndatedHasNoUnderscore(name: string, n: string)
    requires |name| == 11 + |n| && name[7..|name| - 4] == n && AllDigits(n) && name[|name| - 4..] == ".pdf"
    ensures forall k :: 7 <= k < |name| ==> name[k] != '_'
  {
    forall k | 7 <= k < |name|
      ensures name[k] != '_'
    {
      if k < |name| - 4 {
        assert name[k] == n[k - 7];
      } else {
        assert name[k] == ".pdf"[k - (|name| - 4)];
      }
    }
  }

  /** The copy's candidates: the numbered variants put `_<n>` between the
      name's root and its extension. */
  function TargetCandidates(sub: Path, name: string): Candidates
  {
    var (root, ext) := SplitExt(name);
    Numbered(sub, name, root + "_", ext)
  }

  // ---------------------------------------------------------------------
  // Copy mode

  /** `shutil.copy2(pdf, target)`: success, or the error it raises. */
  type Copier = (Path, Path) -> Attempt

  const COPY_ERROR: string := "Dosya kopyalama hatas\U{131}: "

  /** What exists after the first `n` copies: the copies that succeeded
      are added to what existed. */
  function DiskAfter(existing: set<Path>, pdfs: seq<Path>, targets: seq<Path>, copy: Copier, n: nat): set<Path>
    requires n <= |pdfs| && n <= |targets|
  {
    if n == 0 then existing
    else
      DiskAfter(existing, pdfs, targets, copy, n - 1)
        + if copy(pdfs[n - 1], targets[n - 1]).Succeeded? then {targets[n - 1]} else {}
  }

  /** How many of the first `n` copies succeeded. */
  function CopiedCount(pdfs: seq<Path>, targets: seq<Path>, copy: Copier, n: nat): nat
    requires n <= |pdfs| && n <= |targets|
  {
    if n == 0 then 0
    else CopiedCount(pdfs, targets, copy, n - 1) + if copy(pdfs[n - 1], targets[n - 1]).Succeeded? then 1 else 0
  }

  /** The error entries of the first `n` copies that failed, in order. */
  function CopyErrors(infos: seq<PdfInfo>, targets: seq<Path>, copy: Copier, n: nat): seq<ErrorEntry>
    requires n <= |infos| && n <= |targets|
  {
    if n == 0 then []
    else
      var i := n - 1;
      CopyErrors(infos, targets, copy, i)
        + match copy(infos[i].pdf, targets[i])
          case Succeeded => []
          case Failed(e) => [ErrorEntry(ErrorKey(infos[i].evrakId), COPY_ERROR + e)]
  }

  /** The candidates of the `i`-th converted PDF. */
  type NameSeries = (nat, PdfInfo) -> Candidates

  /** The application's series: the target name in the output directory. */
  function CopySeries(sub: Path): (series: NameSeries)
    ensures forall i, info :: series(i, info) == TargetCandidates(sub, TargetName(i, info))
  {
    (i: nat, info: PdfInfo) => TargetCandidates(sub, TargetName(i, info))
  }

  lemma CopySeriesDistinct(sub: Path)
    ensures forall i, info :: VariantsDistinct(CopySeries(sub)(i, info))
  {
    forall i, info
      ensures VariantsDistinct(CopySeries(sub)(i, info))
    {
      var name := TargetName(i, info);
      var (root, ext) := SplitExt(name);
      NumberedVariantsDistinct(sub, name, root + "_", ext);
    }
  }

  /** The copy loop: every converted PDF is copied under the first free
      candidate of its series, given what exists at that moment; the
      application passes `CopySeries(sub)`. */
  method CopyAll(infos: seq<PdfInfo>, series: NameSeries, existing: set<Path>, copy: Copier)
    returns (targets: seq<Path>, copied: nat, errors: seq<ErrorEntry>, disk: set<Path>)
    requires forall i, info :: VariantsDistinct(series(i, info))
    ensures |targets| == |infos|
    ensures forall i :: 0 <= i < |infos| ==>
      IsFirstFree(series(i, infos[i]), DiskAfter(existing, PdfFiles(infos), targets, copy, i), targets[i])
    ensures disk == DiskAfter(existing, PdfFiles(infos), targets, copy, |infos|)
    ensures copied == CopiedCount(PdfFiles(infos), targets, copy, |infos|)
    ensures errors == CopyErrors(infos, targets, copy, |infos|)
  {
    var pdfs := PdfFiles(infos);
    targets, copied, errors, disk := [], 0, [], existing;
    for i := 0 to |infos|
      invariant |targets| == i
      invariant forall j :: 0 <= j < i ==>
        IsFirstFree(series(j, infos[j]), DiskAfter(existing, pdfs, targets, copy, j), targets[j])
      invariant disk == DiskAfter(existing, pdfs, targets, copy, i)
      invariant copied == CopiedCount(pdfs, targets, copy, i)
      invariant errors == CopyErrors(infos, targets, copy, i)
    {
      var target := FirstFree(series(i, infos[i]), disk);
      ghost var before := targets;
      targets := targets + [target];
      CopyStep(infos, existing, copy, before, targets, i);
      KeepAllFirstFree(infos, series, existing, copy, before, targets, i);
      var outcome := copy(infos[i].pdf, target);
      if outcome.Succeeded? {
        copied := copied + 1;
        disk := disk + {target};
      } else {
        errors := errors + [ErrorEntry(ErrorKey(infos[i].evrakId), COPY_ERROR + outcome.message)];
      }
    }
  }

  /** Appending the `i`-th target changes nothing about the first `i` copies. */
  lemma CopyStep(infos: seq<PdfInfo>, existing: set<Path>, copy: Copier, before: seq<Path>, targets: seq<Path>, i: nat)
    requires i < |infos| && |before| == i && |targets| == i + 1 && targets[..i] == before
    ensures forall j :: 0 <= j < i ==> before[j] == targets[j]
    ensures forall j :: 0 <= j <= i ==>
      DiskAfter(existing, PdfFiles(infos), before, copy, j) == DiskAfter(existing, PdfFiles(infos), targets, copy, j)
    ensures CopiedCount(PdfFiles(infos), targets, copy, i) == CopiedCount(PdfFiles(infos), before, copy, i)
    ensures CopyErrors(infos, targets, copy, i) == CopyErrors(infos, before, copy, i)
  {
    assert before[..i] == before;
    DiskAfterPrefix(existing, PdfFiles(infos), before, targets, copy, i);
    CountsPrefix(infos, before, targets, copy, i);
  }

  lemma KeepAllFirstFree(infos: seq<PdfInfo>, series: NameSeries, existing: set<Path>, copy: Copier,
                         before: seq<Path>, targets: seq<Path>, i: nat)
    requires i < |infos| && |before| == i && |targets| == i + 1
    requires forall j :: 0 <= j < i ==> before[j] == targets[j]
    requires forall j :: 0 <= j <= i ==>
      DiskAfter(existing, PdfFiles(infos), before, copy, j) == DiskAfter(existing, PdfFiles(infos), targets, copy, j)
    requires forall j :: 0 <= j < i ==>
      IsFirstFree(series(j, infos[j]), DiskAfter(existing, PdfFiles(infos), before, copy, j), before[j])
    requires IsFirstFree(series(i, infos[i]), DiskAfter(existing, PdfFiles(infos), before, copy, i), targets[i])
    ensures forall j :: 0 <= j <= i ==>
      IsFirstFree(series(j, infos[j]), DiskAfter(existing, PdfFiles(infos), targets, copy, j), targets[j])
  {
  }

  lemma SubsetSize<T>(a: set<T>, b: set<T>)
    requires a <= b
    ensures |a| <= |b|
  {
    assert b == a + (b - a);
  }

  /** The history functions only look at the first `n` copies. */
  lemma {:induction false} DiskAfterPrefix(existing: set<Path>, pdfs: seq<Path>, a: seq<Path>, b: seq<Path>, copy: Copier, n: nat)
    requires n <= |pdfs| && n <= |a| && n <= |b| && a[..n] == b[..n]
    ensures forall j :: 0 <= j <= n ==> DiskAfter(existing, pdfs, a, copy, j) == DiskAfter(existing, pdfs, b, copy, j)
  {
    if n > 0 {
      assert a[..n - 1] == a[..n][..n - 1];
      assert b[..n - 1] == b[..n][..n - 1];
      DiskAfterPrefix(existing, pdfs, a, b, copy, n - 1);
      assert a[n - 1] == a[..n][n - 1];
      assert b[n - 1] == b[..n][n - 1];
    }
  }

  lemma {:induction false} CountsPrefix(infos: seq<PdfInfo>, a: seq<Path>, b: seq<Path>, copy: Copier, n: nat)
    requires n <= |infos| && n <= |a| && n <= |b| && a[..n] == b[..n]
    ensures CopiedCount(PdfFiles(infos), a, copy, n) == CopiedCount(PdfFiles(infos), b, copy, n)
    ensures CopyErrors(infos, a, copy, n) == CopyErrors(infos, b, copy, n)
  {
    if n > 0 {
      assert a[..n - 1] == a[..n][..n - 1];
      assert b[..n - 1] == b[..n][..n - 1];
      CountsPrefix(infos, a, b, copy, n - 1);
      assert a[n - 1] == a[..n][n - 1];
    }
  }

  /** A copy that succeeded stays on disk for every later copy, and what
      existed before stays too. */
  lemma {:induction false} DiskAfterGrows(existing: set<Path>, pdfs: seq<Path>, targets: seq<Path>, copy: Copier, n: nat, i: nat)
    requires i < n <= |pdfs| && n <= |targets|
    ensures existing <= DiskAfter(existing, pdfs, targets, copy, n)
    ensures copy(pdfs[i], targets[i]).Succeeded? ==> targets[i] in DiskAfter(existing, pdfs, targets, copy, n)
  {
    if i < n - 1 {
      DiskAfterGrows(existing, pdfs, targets, copy, n - 1, i);
    } else if n > 1 {
      DiskAfterGrows(existing, pdfs, targets, copy, n - 1, 0);
    }
  }

  /** No copy overwrites a file that existed, nor an earlier copy. */
  lemma NoOverwrite(infos: seq<PdfInfo>, series: NameSeries, existing: set<Path>, copy: Copier, targets: seq<Path>)
    requires |targets| == |infos|
    requires forall i :: 0 <= i < |infos| ==>
      IsFirstFree(series(i, infos[i]), DiskAfter(existing, PdfFiles(infos), targets, copy, i), targets[i])
    ensures forall i :: 0 <= i < |infos| ==> targets[i] !in existing
    ensures forall i, j :: 0 <= i < j < |infos| && copy(infos[i].pdf, targets[i]).Succeeded? ==> targets[j] != targets[i]
  {
    var pdfs := PdfFiles(infos);
    forall i | 0 <= i < |infos|
      ensures targets[i] !in existing
    {
      if i > 0 {
        DiskAfterGrows(existing, pdfs, targets, copy, i, 0);
      }
    }
    forall i, j | 0 <= i < j < |infos| && copy(infos[i].pdf, targets[i]).Succeeded?
      ensures targets[j] != targets[i]
    {
      DiskAfterGrows(existing, pdfs, targets, copy, j, i);
    }
  }

  // ---------------------------------------------------------------------
  // Merge mode

  lemma {:induction false} InsertPdfFiles(o: SortOrder, x: PdfInfo, s: seq<PdfInfo>)
    ensures multiset(PdfFiles(Insert(o, x, s))) == multiset(PdfFiles(s)) + multiset{x.pdf}
  {
    if s == [] {
      PdfFilesCons(x, []);
    } else if Precedes(o, x, s[0]) {
      PdfFilesCons(x, s);
    } else {
      InsertPdfFiles(o, x, s[1..]);
      InsertBehind(o, x, s);
    }
  }

  lemma InsertBehind(o: SortOrder, x: PdfInfo, s: seq<PdfInfo>)
    requires s != [] && !Precedes(o, x, s[0])
    requires multiset(PdfFiles(Insert(o, x, s[1..]))) == multiset(PdfFiles(s[1..])) + multiset{x.pdf}
    ensures multiset(PdfFiles(Insert(o, x, s))) == multiset(PdfFiles(s)) + multiset{x.pdf}
  {
    var t := Insert(o, x, s[1..]);
    assert Insert(o, x, s) == [s[0]] + t;
    PdfFilesCons(s[0], t);
    PdfFilesCons(s[0], s[1..]);
    assert [s[0]] + s[1..] == s;
  }

  lemma PdfFilesCons(x: PdfInfo, s: seq<PdfInfo>)
    ensures PdfFiles([x] + s) == [x.pdf] + PdfFiles(s)
  {
  }

  lemma PdfFilesSnoc(s: seq<PdfInfo>, x: PdfInfo)
    ensures PdfFiles(s + [x]) == PdfFiles(s) + [x.pdf]
  {
  }

  /** The merge order holds the converted PDFs, each exactly as often as
      it was converted; without sorting it is the conversion order. */
  lemma {:induction false} MergeOrderPermutes(s: Settings, infos: seq<PdfInfo>)
    ensures multiset(MergeOrder(s, infos)) == multiset(PdfFiles(infos))
    ensures !s.sortByDate ==> MergeOrder(s, infos) == PdfFiles(infos)
  {
    if s.sortByDate {
      SortPdfFiles(s.order, infos);
    }
  }

  lemma {:induction false} SortPdfFiles(o: SortOrder, infos: seq<PdfInfo>)
    ensures multiset(PdfFiles(SortByDate(o, infos))) == multiset(PdfFiles(infos))
  {
    if infos != [] {
      var front, last := infos[..|infos| - 1], infos[|infos| - 1];
      assert infos == front + [last];
      PdfFilesSnoc(front, last);
      var sorted := SortByDate(o, front);
      assert SortByDate(o, infos) == Insert(o, last, sorted);
      SortPdfFiles(o, front);
      InsertPdfFiles(o, last, sorted);
    }
  }

  /** With sorting on, the merge order is the PDFs of a list sorted by date
      in the chosen direction, in which the invoices of each date keep
      their conversion order. */
  lemma MergeOrderSorted(s: Settings, infos: seq<PdfInfo>, k: Date)
    requires s.sortByDate
    ensures exists sorted: seq<PdfInfo> ::
      && MergeOrder(s, infos) == PdfFiles(sorted)
      && multiset(sorted) == multiset(infos)
      && SortedBy(s.order, sorted)
      && WithKey(sorted, k) == WithKey(infos, k)
  {
    var sorted := SortByDate(s.order, infos);
    SortByDateSorted(s.order, infos);
    SortByDateStable(s.order, infos, k);
    assert MergeOrder(s, infos) == PdfFiles(sorted);
  }

  /** The numbered variants of the merged name do not depend on the sort
      settings: a collision drops the direction from the name. */
  lemma MergedVariantsIgnoreSettings(outDir: Path, s1: Settings, s2: Settings, ts: string, n: nat)
    requires n >= 1
    ensures MergedCandidates(outDir, s1, ts)(n) == MergedCandidates(outDir, s2, ts)(n)
      == Join(outDir, MERGED_PREFIX + ts + "_" + NatToString(n) + ".pdf")
  {
  }

  // ---------------------------------------------------------------------
  // The whole assembly

  /** What the assembly does with the converted PDFs. */
  datatype Outcome =
    | NothingConverted
    | MergeInto(path: Path, order: seq<Path>)
    | CopyInto(dir: Path, targets: seq<Path>, copied: nat, errors: seq<ErrorEntry>)

  /** The output block: no PDF is an error; merge mode picks a free merged
      name and the merge order; copy mode picks a free directory, creates
      it, and copies every PDF under a free name inside it. */
  method AssembleOutput(s: Settings, infos: seq<PdfInfo>, outDir: Path, ts: string, existing: set<Path>, copy: Copier)
    returns (out: Outcome)
    ensures out.NothingConverted? <==> infos == []
    ensures out.MergeInto? <==> MergeMode(s, infos)
    ensures out.MergeInto? ==>
      IsFirstFree(MergedCandidates(outDir, s, ts), existing, out.path) && out.order == MergeOrder(s, infos)
    ensures out.CopyInto? ==>
      && IsFirstFree(OutputDirCandidates(outDir, ts), existing, out.dir)
      && |out.targets| == |infos|
      && (forall i :: 0 <= i < |infos| ==>
            IsFirstFree(CopySeries(out.dir)(i, infos[i]),
                        DiskAfter(existing + {out.dir}, PdfFiles(infos), out.targets, copy, i), out.targets[i]))
      && out.copied == CopiedCount(PdfFiles(infos), out.targets, copy, |infos|)
      && out.errors == CopyErrors(infos, out.targets, copy, |infos|)
  {
    if infos == [] {
      return NothingConverted;
    }
    if MergeMode(s, infos) {
      NumberedVariantsDistinct(outDir, MergedName(s, ts), MERGED_PREFIX + ts + "_", ".pdf");
      var path := FirstFree(MergedCandidates(outDir, s, ts), existing);
      return MergeInto(path, MergeOrder(s, infos));
    }
    NumberedVariantsDistinct(outDir, OUTPUT_PREFIX + ts, OUTPUT_PREFIX + ts + "_", "");
    var dir := FirstFree(OutputDirCandidates(outDir, ts), existing);
    CopySeriesDistinct(dir);
    var targets, copied, errors, _ := CopyAll(infos, CopySeries(dir), existing + {dir}, copy);
    return CopyInto(dir, targets, copied, errors);
  }
}
