/** Model of the paged retrieval of a stored trajectory: any server may answer, page by page. */
module TrajectoryPages {
  import opened Results

  /** A page that passed the type checks, or one that did not. */
  datatype Page = Malformed | Page(length: nat, chunk: string)

  datatype End = Complete(text: string) | Refused | Failed

  function Chunk(p: Page): string {
    if p.Page? then p.chunk else ""
  }

  function Joined(pages: seq<Page>): string {
    if pages == [] then "" else Joined(pages[..|pages| - 1]) + Chunk(pages[|pages| - 1])
  }

  lemma JoinedGrows(pages: seq<Page>, p: Page)
    ensures Joined(pages + [p]) == Joined(pages) + Chunk(p)
  {
    assert (pages + [p])[..|pages|] == pages;
  }

  /** Page `i` is the stretch of `text` that follows the pages before it; only at the end may it be empty. */
  ghost predicate GenuineAt(pages: seq<Page>, i: nat, text: string)
    requires i < |pages|
  {
    var start := |Joined(pages[..i])|;
    && pages[i].Page? && pages[i].length == |text|
    && start + |pages[i].chunk| <= |text| && pages[i].chunk == text[start..start + |pages[i].chunk|]
    && (pages[i].chunk == "" ==> start == |text|)
  }

  /** What the store of `text` may answer to successive requests, of whatever page size above zero. */
  ghost predicate Genuine(pages: seq<Page>, text: string) {
    forall i: nat | i < |pages| :: GenuineAt(pages, i, text)
  }

  lemma GenuineFront(pages: seq<Page>, text: string)
    requires Genuine(pages, text) && pages != []
    ensures Genuine(pages[..|pages| - 1], text)
  {
    var front := pages[..|pages| - 1];
    forall i: nat | i < |front| ensures GenuineAt(front, i, text) {
      assert front[..i] == pages[..i] && front[i] == pages[i];
      assert GenuineAt(pages, i, text);
    }
  }

  lemma {:induction false} GenuineIsPrefix(pages: seq<Page>, text: string)
    requires Genuine(pages, text)
    ensures Joined(pages) <= text
  {
    if pages != [] {
      GenuineFront(pages, text);
      GenuineIsPrefix(pages[..|pages| - 1], text);
      assert GenuineAt(pages, |pages| - 1, text);
    }
  }

  /** The store's answer to a request for at most `size` characters of the text from `start`. */
  function ReadPage(text: string, start: nat, size: nat): Page
    requires start <= |text|
  {
    Page(|text|, text[start..if start + size <= |text| then start + size else |text|])
  }

  /** A store that reads the text on from where the pages end sends genuine ones, of any page size above zero. */
  lemma ReadingIsGenuine(pages: seq<Page>, text: string, size: nat)
    requires Genuine(pages, text) && size > 0
    ensures |Joined(pages)| <= |text|
    ensures Genuine(pages + [ReadPage(text, |Joined(pages)|, size)], text)
  {
    GenuineIsPrefix(pages, text);
    var next := pages + [ReadPage(text, |Joined(pages)|, size)];
    forall i: nat | i < |next| ensures GenuineAt(next, i, text) {
      assert next[..i] == pages[..i];
      assert i < |pages| ==> next[i] == pages[i] && GenuineAt(pages, i, text);
      assert pages[..|pages|] == pages;
    }
  }

  /** `pages` were accepted and the text is not complete. */
  ghost predicate Fetched(pages: seq<Page>, length: Option<nat>, text: string) {
    && text == Joined(pages) && |pages| <= |text| && (length == None <==> pages == [])
    && (length.Some? ==> |text| < length.value)
    && forall i: nat | i < |pages| :: pages[i].Page? && length == Some(pages[i].length)
  }

  /** A genuine page passes every check, and only the last character ends the loop. */
  lemma GenuineFits(pages: seq<Page>, length: Option<nat>, text: string, p: Page, stored: string)
    requires Fetched(pages, length, text) && Genuine(pages + [p], stored)
    ensures p.Page? && p.length == |stored| && (length.Some? ==> p.length == length.value)
    ensures p.chunk == "" ==> |text| == p.length
    ensures text + p.chunk <= stored
  {
    GenuineIsPrefix(pages + [p], stored);
    JoinedGrows(pages, p);
    var n := |pages|;
    assert (pages + [p])[n] == p && (pages + [p])[..n] == pages && GenuineAt(pages + [p], n, stored);
    if n > 0 {
      assert (pages + [p])[n - 1] == pages[n - 1] && GenuineAt(pages + [p], n - 1, stored);
    }
  }

  /** No stored text has these pages. */
  ghost predicate Spurious(pages: seq<Page>) {
    forall text :: !Genuine(pages, text)
  }

  predicate Refusable(p: Page, length: Option<nat>, text: string) {
    || !p.Page?
    || (length.Some? && p.length != length.value)
    || (p.chunk == "" && |text| < p.length)
    || |text| + |p.chunk| > p.length
  }

  lemma RefusableIsSpurious(pages: seq<Page>, length: Option<nat>, text: string, p: Page)
    requires Fetched(pages, length, text)
    ensures Refusable(p, length, text) ==> Spurious(pages + [p])
  {
    forall stored ensures Refusable(p, length, text) ==> !Genuine(pages + [p], stored) {
      if Genuine(pages + [p], stored) {
        GenuineFits(pages, length, text, p, stored);
      }
    }
  }

  /** `text` is what the pages say, of the length they announce, and theirs can be no other. */
  ghost predicate Retrieved(pages: seq<Page>, text: string) {
    && pages != [] && text == Joined(pages)
    && (forall i: nat | i < |pages| :: pages[i].Page? && pages[i].length == |text|)
    && (forall stored | Genuine(pages, stored) :: text == stored)
  }

  lemma CompleteIsRetrieved(pages: seq<Page>, length: Option<nat>, text: string, p: Page)
    requires Fetched(pages, length, text) && p.Page? && (length.Some? ==> p.length == length.value)
    requires |text + p.chunk| == p.length
    ensures Retrieved(pages + [p], text + p.chunk)
  {
    JoinedGrows(pages, p);
    forall stored | Genuine(pages + [p], stored) ensures text + p.chunk == stored {
      GenuineFits(pages, length, text, p, stored);
    }
  }

  /** No more pages than characters announced, but for a first page. */
  predicate Bounded(pages: seq<Page>) {
    |pages| > 1 ==> pages[0].Page? && |pages| <= pages[0].length
  }

  lemma FetchedBounded(pages: seq<Page>, length: Option<nat>, text: string, p: Page)
    requires Fetched(pages, length, text)
    ensures Bounded(pages) && Bounded(pages + [p])
  {
    assert pages != [] ==> (pages + [p])[0] == pages[0];
  }

  lemma FetchedAdvances(pages: seq<Page>, length: Option<nat>, text: string, p: Page)
    requires Fetched(pages, length, text) && !Refusable(p, length, text) && |text + p.chunk| < p.length
    ensures Fetched(pages + [p], Some(p.length), text + p.chunk)
  {
    JoinedGrows(pages, p);
  }

  /** What one turn of the loop leads to. */
  datatype Turn = Rejected | Finished(text: string) | Onward(length: nat, text: string)

  function Judged(length: Option<nat>, text: string, p: Page): Turn {
    if Refusable(p, length, text) then Rejected
    else if |text| + |p.chunk| == p.length then Finished(text + p.chunk)
    else Onward(p.length, text + p.chunk)
  }

  /** Every verdict of the loop on its next page is right. */
  lemma VerdictIsRight(pages: seq<Page>, length: Option<nat>, text: string, p: Page)
    requires Fetched(pages, length, text)
    ensures Judged(length, text, p).Rejected? ==> Spurious(pages + [p])
    ensures Judged(length, text, p).Finished? ==> Retrieved(pages + [p], Judged(length, text, p).text)
    ensures Judged(length, text, p).Onward? ==>
              Fetched(pages + [p], Some(Judged(length, text, p).length), Judged(length, text, p).text)
  {
    match Judged(length, text, p)
    case Rejected => RefusableIsSpurious(pages, length, text, p);
    case Finished(_) => CompleteIsRetrieved(pages, length, text, p);
    case Onward(_, _) => FetchedAdvances(pages, length, text, p);
  }

  /** The body of the loop: judge one page and take its chunk. */
  method TakePage(length: Option<nat>, text: string, page: Page) returns (turn: Turn)
    ensures turn == Judged(length, text, page)
  {
    if !page.Page? {
      return Rejected;
    }
    var announced := if length == None then page.length else length.value;
    if page.length != announced || (page.chunk == "" && |text| < announced) {
      return Rejected;
    }
    var grown := text + page.chunk;
    if |grown| >= announced {
      return if |grown| != announced then Rejected else Finished(grown);
    }
    return Onward(announced, grown);
  }

  /**
   For a store that answers with `answers` before a call fails, retrieval ends
   after at most one page per character announced (and one for an empty text).
   It returns only a text of the announced length made of the pages' chunks in
   order, refuses only pages that no stored text has, and otherwise has taken
   every answer there was.
   */
  method FetchTrajectory(answers: seq<Page>) returns (end: End, n: nat)
    ensures n <= |answers|
    ensures end.Complete? ==> Retrieved(answers[..n], end.text)
    ensures end.Refused? ==> Spurious(answers[..n])
    ensures end.Failed? ==> n == |answers|
    ensures Bounded(answers[..n])
  {
    var length: Option<nat>, text := None, "";
    n := 0;
    while n < |answers|
      invariant n <= |answers| && Fetched(answers[..n], length, text) && Bounded(answers[..n])
      decreases if length == None then 1 else 0, if length == None then 0 else length.value - |text|
    {
      var page := answers[n];
      var turn := TakePage(length, text, page);
      VerdictIsRight(answers[..n], length, text, page);
      FetchedBounded(answers[..n], length, text, page);
      assert answers[..n + 1] == answers[..n] + [page];
      n := n + 1;
      match turn
      case Rejected => return Refused, n;
      case Finished(whole) => return Complete(whole), n;
      case Onward(announced, grown) => length, text := Some(announced), grown;
    }
    return Failed, n;
  }
}
