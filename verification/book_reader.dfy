/** The travel-story reader (`BookModal`): a cover followed by the story's
    pages, one shown at a time, with previous and next buttons that stop at
    either end, a page indicator, and page text split into paragraphs at
    blank lines. */
module BookReader {
  import opened Wrappers
  import opened JsStrings

  /** A content page: its optional title and optional text. Images and
      their placement are presentation only. */
  datatype BookPage = BookPage(title: Option<string>, content: Option<string>)

  datatype Book = Book(title: string, author: string, pages: seq<BookPage>)

  /** An entry of `allPages`: the cover built from the book's title and
      author, or one of the book's pages. */
  datatype Leaf = Cover(coverTitle: string, coverAuthor: string) | Content(page: BookPage)

  /** `allPages`: the cover followed by the pages, in order. */
  function AllPages(b: Book): (r: seq<Leaf>)
    ensures |r| == |b.pages| + 1
    ensures r[0] == Cover(b.title, b.author)
    ensures forall i :: 1 <= i < |r| ==> r[i] == Content(b.pages[i - 1])
  {
    [Cover(b.title, b.author)] + ContentLeaves(b.pages)
  }

  function ContentLeaves(ps: seq<BookPage>): (r: seq<Leaf>)
    ensures |r| == |ps|
    ensures forall i :: 0 <= i < |ps| ==> r[i] == Content(ps[i])
  {
    if |ps| == 0 then [] else [Content(ps[0])] + ContentLeaves(ps[1..])
  }

  /** The reader opens on the cover. */
  const FirstPage: nat := 0

  /** The page index is a position of `allPages`. */
  predicate InRange(b: Book, idx: nat) {
    idx < |AllPages(b)|
  }

  /** `goToNextPage`: one page on, unless already on the last page. */
  function NextPage(b: Book, idx: nat): (r: nat)
    ensures idx < |b.pages| ==> r == idx + 1
    ensures idx >= |b.pages| ==> r == idx
  {
    if idx < |AllPages(b)| - 1 then idx + 1 else idx
  }

  /** `goToPrevPage`: one page back, unless on the cover. */
  function PrevPage(idx: nat): (r: nat)
    ensures idx > 0 ==> r == idx - 1
    ensures idx == 0 ==> r == 0
  {
    if idx > 0 then idx - 1 else idx
  }

  predicate PrevDisabled(idx: nat) {
    idx == 0
  }

  predicate NextDisabled(b: Book, idx: nat) {
    idx == |AllPages(b)| - 1
  }

  /** A button is disabled exactly where pressing it would do nothing. */
  lemma DisabledIffNoOp(b: Book, idx: nat)
    requires InRange(b, idx)
    ensures PrevDisabled(idx) <==> PrevPage(idx) == idx
    ensures NextDisabled(b, idx) <==> NextPage(b, idx) == idx
  {
  }

  /** The reader's controls: the two arrows and the close button. */
  datatype Event = NextClick | PrevClick | CloseClick

  /** The page index and how many times `onClose` was called. */
  datatype Reader = Reader(page: nat, closes: nat)

  function Open(): Reader {
    Reader(FirstPage, 0)
  }

  /** One click. Closing only notifies the owner: the page index is kept. */
  function Step(b: Book, r: Reader, e: Event): (r': Reader)
    ensures e == CloseClick ==> r' == r.(closes := r.closes + 1)
    ensures e != CloseClick ==> r'.closes == r.closes
  {
    match e
    case NextClick => r.(page := NextPage(b, r.page))
    case PrevClick => r.(page := PrevPage(r.page))
    case CloseClick => r.(closes := r.closes + 1)
  }

  function Run(b: Book, r: Reader, es: seq<Event>): Reader
    decreases |es|
  {
    if |es| == 0 then r else Run(b, Step(b, r, es[0]), es[1..])
  }

  /** No sequence of clicks leaves `allPages`: the page shown always
      exists. */
  lemma {:induction false} RunStaysInRange(b: Book, r: Reader, es: seq<Event>)
    requires InRange(b, r.page)
    ensures InRange(b, Run(b, r, es).page)
    decreases |es|
  {
    if |es| > 0 {
      RunStaysInRange(b, Step(b, r, es[0]), es[1..]);
    }
  }

  /** Pressing next `k` times from the cover reaches page `k`, or the last
      page if there are fewer. */
  lemma {:induction false} NextsFromCover(b: Book, r: Reader, k: nat)
    requires r.page <= |b.pages|
    ensures Run(b, r, seq(k, _ => NextClick)).page == Min(r.page + k, |b.pages|)
    decreases k
  {
    if k > 0 {
      var es := seq(k, _ => NextClick);
      assert es[0] == NextClick;
      assert es[1..] == seq(k - 1, _ => NextClick);
      NextsFromCover(b, Step(b, r, NextClick), k - 1);
    }
  }

  function Min(a: int, b: int): int {
    if a < b then a else b
  }

  /** Closing and reopening: the page index is untouched by any number of
      close clicks. */
  lemma {:induction false} ClosesKeepPage(b: Book, r: Reader, k: nat)
    ensures Run(b, r, seq(k, _ => CloseClick)) == Reader(r.page, r.closes + k)
    decreases k
  {
    if k > 0 {
      var es := seq(k, _ => CloseClick);
      assert es[0] == CloseClick;
      assert es[1..] == seq(k - 1, _ => CloseClick);
      ClosesKeepPage(b, Step(b, r, CloseClick), k - 1);
    }
  }

  /** Next then previous comes back, except from the last page. */
  lemma NextThenPrev(b: Book, idx: nat)
    requires idx < |b.pages|
    ensures PrevPage(NextPage(b, idx)) == idx
  {
  }

  /** What is rendered at a page index: the cover at index 0, the entry of
      `allPages` otherwise. */
  function Shown(b: Book, idx: nat): (l: Leaf)
    requires InRange(b, idx)
    ensures l == AllPages(b)[idx]
  {
    if idx == 0 then Cover(b.title, b.author) else AllPages(b)[idx]
  }

  /** "Page <index> of <number of pages after the cover>". */
  function Indicator(b: Book, idx: nat): string
  {
    "Page " + NatToString(idx) + " of " + NatToString(|AllPages(b)| - 1)
  }

  /** The indicator names the index and the count of content pages, and
      both numbers read back as what they count. */
  lemma IndicatorFacts(b: Book, idx: nat)
    ensures var t := Indicator(b, idx);
      StartsWith(t, "Page ") && t == "Page " + NatToString(idx) + " of " + NatToString(|b.pages|)
    ensures ParseDecimal(NatToString(idx)) == idx
    ensures ParseDecimal(NatToString(|b.pages|)) == |b.pages|
  {
    ParseNatToString(idx);
    ParseNatToString(|b.pages|);
    var t := Indicator(b, idx);
    assert t == "Page " + (NatToString(idx) + " of " + NatToString(|b.pages|));
  }

  /** A page's paragraphs: its text split at blank lines, or none when the
      page has no text. */
  function Paragraphs(p: BookPage): (r: seq<string>)
    ensures p.content.None? || p.content.value == "" ==> r == []
    ensures p.content.Some? && p.content.value != "" ==> |r| >= 1
  {
    if p.content.Some? && p.content.value != "" then Split(p.content.value, "\n\n") else []
  }

  /** The paragraphs joined back with a blank line are the page's text
      exactly. */
  lemma ParagraphsRejoin(p: BookPage)
    requires p.content.Some?
    ensures Join(Paragraphs(p), "\n\n") == p.content.value
  {
    if p.content.value != "" {
      JoinSplit(p.content.value, "\n\n");
    }
  }
}
