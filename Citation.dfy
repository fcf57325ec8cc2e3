/** The documents a retrieval response cites, and the rule both formatters
    share for when a document's page number is shown: only for a path that
    ends in ".pdf" and whose metadata carries a "page" entry. */
module Citation {
  import opened Wrappers

  /** A LangChain document reduced to the metadata the formatters read:
      the mandatory "source" path and the optional "page" number. */
  datatype Doc = Doc(source: string, page: Option<nat>)

  const PdfSuffix: string := ".pdf"

  /** Python's str.endswith: case-sensitive, on code points. */
  predicate EndsWith(s: string, suffix: string) {
    |suffix| <= |s| && s[|s| - |suffix|..] == suffix
  }

  /** The gating rule: a page number is attached to a citation exactly when
      the path ends in ".pdf" and the metadata has "page". */
  predicate IsPagedPdf(d: Doc) {
    EndsWith(d.source, PdfSuffix) && d.page.Some?
  }

  /** One entry of the search formatter's "sub_choices" list: the dictionary
      {"source": path} or {"source": path, "page_number": page}. */
  datatype SubChoice = SubChoice(source: string, pageNumber: Option<nat>)

  /** The dictionary a surviving sub document becomes. */
  function ToSubChoice(d: Doc): (c: SubChoice)
    ensures c.source == d.source
    ensures c.pageNumber.Some? <==> IsPagedPdf(d)
    ensures c.pageNumber.Some? ==> c.pageNumber == d.page
  {
    if EndsWith(d.source, PdfSuffix) && d.page.Some? then SubChoice(d.source, d.page)
    else SubChoice(d.source, None)
  }

  // ----- decimal rendering of a page number, as Python's str(int) -----

  predicate IsDigit(c: char) {
    '0' <= c <= '9'
  }

  predicate AllDigits(s: string) {
    forall i :: 0 <= i < |s| ==> IsDigit(s[i])
  }

  function DigitChar(d: nat): (c: char)
    requires d < 10
    ensures IsDigit(c)
  {
    ('0' as int + d) as char
  }

  function DigitValue(c: char): nat
    requires IsDigit(c)
  {
    c as int - '0' as int
  }

  /** The decimal digits of n, most significant first, without leading zeros. */
  function Decimal(n: nat): (s: string)
    ensures |s| > 0 && AllDigits(s)
    ensures s[0] == '0' ==> n == 0
    decreases n
  {
    if n < 10 then [DigitChar(n)] else Decimal(n / 10) + [DigitChar(n % 10)]
  }

  /** The number a string of decimal digits denotes. */
  function DecimalValue(s: string): nat
    requires AllDigits(s)
    decreases |s|
  {
    if s == [] then 0 else 10 * DecimalValue(s[..|s| - 1]) + DigitValue(s[|s| - 1])
  }

  /** Reading back the digits gives the page number: distinct pages get
      distinct labels. */
  lemma {:induction false} DecimalRoundTrip(n: nat)
    ensures DecimalValue(Decimal(n)) == n
    decreases n
  {
    var s := Decimal(n);
    if n >= 10 {
      DecimalRoundTrip(n / 10);
      assert s[..|s| - 1] == Decimal(n / 10);
    }
  }

  // ----- the inquiry formatter's label for one document -----

  const PageOpen: string := " (ページNo."
  const PageClose: string := ")"

  /** The text appended to a paged PDF's path. */
  function PageSuffix(n: nat): (t: string)
    ensures forall i :: 0 <= i < |t| ==> t[i] != 'f'
  {
    PageOpen + Decimal(n) + PageClose
  }

  /** f"{path} (ページNo.{page})" for a paged PDF, f"{path}" otherwise. */
  function FileInfo(d: Doc): string {
    if EndsWith(d.source, PdfSuffix) && d.page.Some? then d.source + PageSuffix(d.page.value)
    else d.source
  }

  /** The label starts with the path, and is the bare path exactly when the
      gating rule withholds the page. */
  lemma FileInfoShape(d: Doc)
    ensures |d.source| <= |FileInfo(d)| && FileInfo(d)[..|d.source|] == d.source
    ensures FileInfo(d) == d.source <==> !IsPagedPdf(d)
    ensures IsPagedPdf(d) ==> FileInfo(d) == d.source + PageSuffix(d.page.value)
  {
  }

  /** If s1 + t1 == s2 + t2, s2 ends in ".pdf" and t1 has no 'f', then the
      last character of s2 cannot fall inside t1. */
  lemma PdfPathNotLonger(s1: string, t1: string, s2: string, t2: string)
    requires s1 + t1 == s2 + t2
    requires EndsWith(s2, PdfSuffix)
    requires forall i :: 0 <= i < |t1| ==> t1[i] != 'f'
    ensures |s2| <= |s1|
  {
    assert forall i :: |s1| <= i < |s1| + |t1| ==> (s1 + t1)[i] == t1[i - |s1|];
    assert (s2 + t2)[|s2| - 1] == s2[|s2| - 1] == PdfSuffix[3];
  }

  /** The label of a paged PDF determines both its path and its page. */
  lemma FileInfoDeterminesPagedPdf(d1: Doc, d2: Doc)
    requires IsPagedPdf(d1) && IsPagedPdf(d2)
    requires FileInfo(d1) == FileInfo(d2)
    ensures d1 == d2
  {
    var n1, n2 := d1.page.value, d2.page.value;
    var t1, t2 := PageSuffix(n1), PageSuffix(n2);
    assert d1.source + t1 == d2.source + t2;
    PdfPathNotLonger(d1.source, t1, d2.source, t2);
    PdfPathNotLonger(d2.source, t2, d1.source, t1);
    var s := d1.source + t1;
    assert d1.source == s[..|d1.source|] == d2.source;
    assert t1 == s[|d1.source|..] == t2;
    assert Decimal(n1) == t1[|PageOpen|..|t1| - 1] == Decimal(n2);
    DecimalRoundTrip(n1);
    DecimalRoundTrip(n2);
  }
}
