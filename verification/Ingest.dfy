/** The batch ingest: the paged listing, the overlapping windows of consecutive runs, and the upload of every
    candidate. */
module Ingest {
  import opened Text
  import opened Extraction

  datatype Object = Object(key: string, size: nat, modified: Option<real>)

  datatype Page = Page(contents: seq<Object>, truncated: bool, next: Option<string>)

  datatype Candidate = Candidate(key: string, size: nat, modified: real)

  // ---------------------------------------------------------------------------------------------
  // Listing.
  // ---------------------------------------------------------------------------------------------

  predicate Wanted(o: Object, since: real) { o.key != "" && o.modified.Some? && o.modified.value >= since }

  function Recent(objects: seq<Object>, since: real): seq<Candidate> {
    if objects == [] then []
    else
      var n := |objects| - 1;
      Recent(objects[..n], since)
      + if Wanted(objects[n], since)
        then [Candidate(objects[n].key, objects[n].size, objects[n].modified.value)] else []
  }

  function Listing(pages: seq<Page>): seq<Object> {
    if pages == [] then [] else Listing(pages[..|pages| - 1]) + pages[|pages| - 1].contents
  }

  /** A server that serves `pages` in order: every page but the last is truncated and carries a token, and the
      token leads to the next page.  The empty token stands for a request without one. */
  ghost predicate Serves(server: string -> Page, pages: seq<Page>) {
    && pages != [] && server("") == pages[0]
    && (forall i: nat | i < |pages| :: pages[i].truncated <==> i < |pages| - 1)
    && (forall i: nat | i < |pages| - 1 ::
          pages[i].next.Some? && pages[i].next.value != "" && server(pages[i].next.value) == pages[i + 1])
  }

  /** The token of the next request. */
  function Token(p: Page): string { if p.next.Some? then p.next.value else "" }

  lemma {:induction false} RecentConcat(a: seq<Object>, b: seq<Object>, since: real)
    ensures Recent(a + b, since) == Recent(a, since) + Recent(b, since)
    decreases |b|
  {
    if b == [] {
      assert a + b == a;
    } else {
      var n := |b| - 1;
      assert (a + b)[..|a + b| - 1] == a + b[..n];
      RecentConcat(a, b[..n], since);
    }
  }

  /** The inner loop: what one page adds. */
  method AddPage(before: seq<Candidate>, contents: seq<Object>, since: real) returns (candidates: seq<Candidate>)
    ensures candidates == before + Recent(contents, since)
  {
    candidates := before;
    for i := 0 to |contents|
      invariant candidates == before + Recent(contents[..i], since)
    {
      var o := contents[i];
      assert contents[..i + 1][..i] == contents[..i];
      if o.key != "" && o.modified.Some? && o.modified.value >= since {
        candidates := candidates + [Candidate(o.key, o.size, o.modified.value)];
      }
    }
    assert contents[..|contents|] == contents;
  }

  /** The loop of `list_recent_objects_sync`. */
  method ListRecent(server: string -> Page, since: real, ghost pages: seq<Page>) returns (candidates: seq<Candidate>)
    requires Serves(server, pages)
    ensures candidates == Recent(Listing(pages), since)
  {
    candidates := [];
    var token, more := "", true;
    ghost var k: nat := 0;
    assert pages[..0] == [];
    while more
      invariant k <= |pages| && (more <==> k < |pages|)
      invariant more ==> server(token) == pages[k]
      invariant candidates == Recent(Listing(pages[..k]), since)
      decreases |pages| - k
    {
      var page := server(token);
      candidates := AddPage(candidates, page.contents, since);
      RecentConcat(Listing(pages[..k]), page.contents, since);
      assert pages[..k + 1][..k] == pages[..k];
      more := page.truncated;
      if more {
        token := Token(page);
      }
      k := k + 1;
    }
    assert pages[..|pages|] == pages;
  }

  lemma {:induction false} RecentExactly(objects: seq<Object>, since: real, c: Candidate)
    ensures c in Recent(objects, since)
       <==> exists i: nat :: i < |objects| && Wanted(objects[i], since)
              && c == Candidate(objects[i].key, objects[i].size, objects[i].modified.value)
    decreases |objects|
  {
    if objects != [] {
      var n := |objects| - 1;
      RecentExactly(objects[..n], since, c);
      assert forall i: nat | i < n :: objects[..n][i] == objects[i];
    }
  }

  /** The token that request number `k` carries, for a server that always truncates. */
  function TokenAfter(server: string -> Page, k: nat): string {
    if k == 0 then "" else Token(server(TokenAfter(server, k - 1)))
  }

  lemma {:induction false} TokensRepeat(server: string -> Page, i: nat, j: nat, k: nat)
    requires i < j && TokenAfter(server, i) == TokenAfter(server, j)
    ensures TokenAfter(server, i + k) == TokenAfter(server, j + k)
    decreases k
  {
    if k > 0 {
      TokensRepeat(server, i, j, k - 1);
      assert i + k - 1 == i + (k - 1) && j + k - 1 == j + (k - 1);
    }
  }

  /** The loop needs the tokens to advance: when a token comes back and every page so far was truncated, every
      later page is. */
  lemma {:induction false} RepeatedTokenNeverEnds(server: string -> Page, i: nat, j: nat, k: nat)
    requires i < j && TokenAfter(server, i) == TokenAfter(server, j)
    requires forall l: nat | l < j :: server(TokenAfter(server, l)).truncated
    ensures server(TokenAfter(server, k)).truncated
    decreases k
  {
    if k >= j {
      TokensRepeat(server, i, j, k - j);
      RepeatedTokenNeverEnds(server, i, j, i + (k - j));
    }
  }

  /** A truncated page without a token, wherever the requests reach it, sends the loop back to the first page, and
      it never ends. */
  lemma WithoutTokenNeverEnds(server: string -> Page, n: nat, k: nat)
    requires forall l: nat | l <= n :: server(TokenAfter(server, l)).truncated
    requires Token(server(TokenAfter(server, n))) == ""
    ensures TokenAfter(server, n + 1 + k) == TokenAfter(server, k) && server(TokenAfter(server, k)).truncated
  {
    assert TokenAfter(server, n + 1) == "" == TokenAfter(server, 0);
    TokensRepeat(server, 0, n + 1, k);
    RepeatedTokenNeverEnds(server, 0, n + 1, k);
  }

  /** The first `n` requests are answered by truncated pages. */
  ghost predicate GoesOn(server: string -> Page, n: nat) {
    forall l: nat | l < n :: server(TokenAfter(server, l)).truncated
  }

  /** Request number `n` is the first one answered by a page that is not truncated. */
  ghost predicate EndsAt(server: string -> Page, n: nat) {
    GoesOn(server, n) && !server(TokenAfter(server, n)).truncated
  }

  /** The loop ends. */
  ghost predicate Ends(server: string -> Page) { exists n: nat :: EndsAt(server, n) }

  /** The answers to the first `n` requests. */
  function Answers(server: string -> Page, n: nat): (pages: seq<Page>)
    ensures |pages| == n && forall i: nat | i < n :: pages[i] == server(TokenAfter(server, i))
  {
    if n == 0 then [] else Answers(server, n - 1) + [server(TokenAfter(server, n - 1))]
  }

  /** Until the last page every token leads on: without one the loop would not end. */
  lemma TokensLeadOn(server: string -> Page, n: nat, i: nat)
    requires EndsAt(server, n) && i < n
    ensures var p := server(TokenAfter(server, i)); p.next.Some? && p.next.value != ""
  {
    if Token(server(TokenAfter(server, i))) == "" { WithoutTokenNeverEnds(server, i, n); }
  }

  lemma {:induction false} ServedInOrder(server: string -> Page, pages: seq<Page>, i: nat)
    requires Serves(server, pages) && i < |pages|
    ensures server(TokenAfter(server, i)) == pages[i]
    decreases i
  {
    if i > 0 { ServedInOrder(server, pages, i - 1); }
  }

  /** The pages that a server serves are the answers up to the first page that is not truncated: the paging loop is
      specified for exactly the servers on which it ends. */
  lemma ServesExactly(server: string -> Page, pages: seq<Page>)
    ensures Serves(server, pages)
       <==> pages != [] && EndsAt(server, |pages| - 1) && pages == Answers(server, |pages|)
  {
    if Serves(server, pages) {
      forall i: nat | i < |pages| ensures server(TokenAfter(server, i)) == pages[i] { ServedInOrder(server, pages, i); }
    } else if pages != [] && EndsAt(server, |pages| - 1) && pages == Answers(server, |pages|) {
      assert server("") == server(TokenAfter(server, 0)) == pages[0];
      forall i: nat | i < |pages| - 1
        ensures pages[i].next.Some? && pages[i].next.value != "" && server(pages[i].next.value) == pages[i + 1]
      {
        TokensLeadOn(server, |pages| - 1, i);
        assert server(TokenAfter(server, i + 1)) == pages[i + 1];
      }
      assert false;
    }
  }

  lemma EndsExactlyWhenServed(server: string -> Page)
    ensures Ends(server) <==> exists pages :: Serves(server, pages)
  {
    if n: nat :| EndsAt(server, n) { ServesExactly(server, Answers(server, n + 1)); }
    if pages :| Serves(server, pages) { ServesExactly(server, pages); }
  }

  /** The first `n` requests carry different tokens, the missing one included. */
  ghost predicate NewTokens(server: string -> Page, n: nat) {
    forall i: nat, j: nat | i < j < n :: TokenAfter(server, i) != TokenAfter(server, j)
  }

  /** As long as the pages are truncated, no token comes back. */
  ghost predicate NoTokenComesBack(server: string -> Page) {
    forall n: nat | GoesOn(server, n) :: NewTokens(server, n + 1)
  }

  /** The tokens of the first `n` requests. */
  ghost function Used(server: string -> Page, n: nat): set<string> { set i: nat | i < n :: TokenAfter(server, i) }

  lemma {:induction false} UsedCount(server: string -> Page, n: nat)
    requires NewTokens(server, n)
    ensures |Used(server, n)| == n
    decreases n
  {
    if n > 0 {
      UsedCount(server, n - 1);
      var last := TokenAfter(server, n - 1);
      assert last !in Used(server, n - 1);
      assert Used(server, n) == Used(server, n - 1) + {last};
    }
  }

  /** The requests carry no other tokens than these. */
  ghost predicate Uses(server: string -> Page, tokens: set<string>) { forall k: nat :: TokenAfter(server, k) in tokens }

  lemma SmallerSet<T>(a: set<T>, b: set<T>)
    requires a <= b
    ensures |a| <= |b|
  {
    assert b == a + (b - a);
  }

  /** With finitely many tokens the loop ends exactly when no token comes back while the pages are truncated, the
      missing one included; and then it takes no more requests than there are tokens. */
  lemma EndsExactly(server: string -> Page, tokens: set<string>)
    requires Uses(server, tokens)
    ensures Ends(server) <==> NoTokenComesBack(server)
    ensures Ends(server) ==> exists n: nat :: n < |tokens| && EndsAt(server, n)
  {
    if n: nat :| EndsAt(server, n) {
      forall m: nat | GoesOn(server, m) ensures NewTokens(server, m + 1) {
        forall i: nat, j: nat | i < j < m + 1 ensures TokenAfter(server, i) != TokenAfter(server, j) {
          if TokenAfter(server, i) == TokenAfter(server, j) { RepeatedTokenNeverEnds(server, i, j, n); }
        }
      }
    }
    if NoTokenComesBack(server) {
      var n := FirstUntruncated(server, tokens, |tokens|);
    }
  }

  /** Among one request more than there are tokens, one is answered by an untruncated page. */
  lemma FirstUntruncated(server: string -> Page, tokens: set<string>, m: nat) returns (n: nat)
    requires Uses(server, tokens) && NoTokenComesBack(server) && m == |tokens|
    ensures n < m && EndsAt(server, n)
  {
    if GoesOn(server, m) {
      assert NewTokens(server, m + 1);
      UsedCount(server, m + 1);
      assert Used(server, m + 1) <= tokens;
      SmallerSet(Used(server, m + 1), tokens);
      assert false;
    }
    n := Least(server, m);
  }

  lemma {:induction false} Least(server: string -> Page, m: nat) returns (n: nat)
    requires exists l: nat :: l < m && !server(TokenAfter(server, l)).truncated
    ensures n < m && EndsAt(server, n)
    decreases m
  {
    if l: nat :| l < m - 1 && !server(TokenAfter(server, l)).truncated {
      n := Least(server, m - 1);
    } else {
      n := m - 1;
    }
  }

  // ---------------------------------------------------------------------------------------------
  // Videos.
  // ---------------------------------------------------------------------------------------------

  /** Python's IGNORECASE, for the letters of the pattern: the Kelvin sign counts as a `k`. */
  function Fold(c: char): char {
    if IsUpper(c) then (c as int + 32) as char else if c == '\U{212A}' then 'k' else c
  }

  predicate EndsFolded(key: string, w: string) {
    |w| <= |key| && forall i | 0 <= i < |w| :: Fold(key[|key| - |w| + i]) == w[i]
  }

  predicate VideoName(key: string) {
    EndsFolded(key, ".mp4") || EndsFolded(key, ".webm") || EndsFolded(key, ".mkv") || EndsFolded(key, ".mov")
  }

  /** `\.(mp4|webm|mkv|mov)$`, where `$` also matches before a final line break. */
  predicate IsVideo(key: string) {
    VideoName(key) || (key != "" && key[|key| - 1] == '\n' && VideoName(key[..|key| - 1]))
  }

  /** `filter_video_objects` */
  function Videos(candidates: seq<Candidate>): seq<Candidate> {
    if candidates == [] then []
    else (if IsVideo(candidates[0].key) then [candidates[0]] else []) + Videos(candidates[1..])
  }

  lemma {:induction false} VideosExactly(candidates: seq<Candidate>, c: Candidate)
    ensures c in Videos(candidates) <==> c in candidates && IsVideo(c.key)
    decreases |candidates|
  {
    hide IsVideo;
    if candidates != [] {
      VideosExactly(candidates[1..], c);
      assert candidates == [candidates[0]] + candidates[1..];
    }
  }

  /** `s` is `w`, a word in small letters and digits, with some of its letters possibly in upper case. */
  ghost predicate SameInAnyCase(s: string, w: string) {
    |s| == |w| && forall i: nat | i < |w| :: s[i] == w[i] || ('a' <= w[i] <= 'z' && s[i] as int + 32 == w[i] as int)
  }

  ghost predicate VideoEnding(e: string) {
    SameInAnyCase(e, "mp4") || SameInAnyCase(e, "webm") || SameInAnyCase(e, "mkv") || SameInAnyCase(e, "mov")
  }

  lemma FoldIs(c: char, d: char)
    requires c as int < 128 && ('a' <= d <= 'z' || '0' <= d <= '9' || d == '.')
    ensures Fold(c) == d <==> c == d || ('a' <= d <= 'z' && c as int + 32 == d as int)
  {
  }

  ghost predicate FoldsTo(e: string, w: string) {
    |e| == |w| && forall i: nat | i < |w| :: Fold(e[i]) == w[i]
  }

  lemma EndFolds(name: string, e: string, w: string)
    requires |e| == |w|
    ensures EndsFolded(name + e, w) <==> FoldsTo(e, w)
  {
    hide Fold;
    var key := name + e;
    assert forall i: nat | i < |w| :: key[|key| - |w| + i] == e[i];
    if EndsFolded(key, w) {
      forall i: nat | i < |w| ensures Fold(e[i]) == w[i] { assert Fold(key[|key| - |w| + i]) == w[i]; }
    }
    if FoldsTo(e, w) {
      forall i: nat | i < |w| ensures Fold(key[|key| - |w| + i]) == w[i] { assert Fold(e[i]) == w[i]; }
    }
  }

  lemma DotFolds(e: string, w: string)
    ensures FoldsTo("." + e, "." + w) <==> FoldsTo(e, w)
  {
    FoldIs('.', '.');
    hide Fold;
    var x, y := "." + e, "." + w;
    if FoldsTo(x, y) {
      forall i: nat | i < |w| ensures Fold(e[i]) == w[i] { assert Fold(x[i + 1]) == y[i + 1]; }
    }
    if FoldsTo(e, w) {
      forall i: nat | i < |y| ensures Fold(x[i]) == y[i] { if i > 0 { assert Fold(e[i - 1]) == w[i - 1]; } }
    }
  }

  lemma FoldedEnd(name: string, e: string, w: string)
    requires |e| == |w| && forall i: nat | i < |e| :: e[i] as int < 128
    requires forall i: nat | i < |w| :: 'a' <= w[i] <= 'z' || '0' <= w[i] <= '9'
    ensures EndsFolded(name + "." + e, "." + w) <==> SameInAnyCase(e, w)
  {
    hide Fold, EndsFolded;
    Assoc(name, ".", e);
    EndFolds(name, "." + e, "." + w);
    DotFolds(e, w);
    forall i: nat | i < |w|
      ensures Fold(e[i]) == w[i] <==> e[i] == w[i] || ('a' <= w[i] <= 'z' && e[i] as int + 32 == w[i] as int)
    {
      FoldIs(e[i], w[i]);
    }
  }

  lemma EndIs(key: string, w: string)
    requires forall i: nat | i < |key| :: key[i] as int < 128
    requires forall i: nat | i < |w| :: 'a' <= w[i] <= 'z' || '0' <= w[i] <= '9'
    ensures EndsFolded(key, "." + w) <==> exists name, e :: key == name + "." + e && SameInAnyCase(e, w)
  {
    hide Fold, SameInAnyCase;
    if EndsFolded(key, "." + w) {
      var n := |key| - |w| - 1;
      var name, e := key[..n], key[n + 1..];
      assert Fold(key[n + 0]) == ("." + w)[0];
      FoldIs(key[n], '.');
      assert key == name + "." + e;
      FoldedEnd(name, e, w);
    }
    if name, e :| key == name + "." + e && SameInAnyCase(e, w) {
      SameLength(e, w);
      assert forall i: nat | i < |e| :: e[i] == key[|name| + 1 + i];
      FoldedEnd(name, e, w);
    }
  }

  lemma SameLength(e: string, w: string)
    requires SameInAnyCase(e, w)
    ensures |e| == |w|
  {
  }

  ghost predicate VideoFile(key: string) { exists name, e :: key == name + "." + e && VideoEnding(e) }

  lemma VideoNameExactly(key: string)
    requires forall i: nat | i < |key| :: key[i] as int < 128
    ensures VideoName(key) <==> VideoFile(key)
  {
    hide EndsFolded, SameInAnyCase;
    var ws := ["mp4", "webm", "mkv", "mov"];
    EndIs(key, "mp4");
    EndIs(key, "webm");
    EndIs(key, "mkv");
    EndIs(key, "mov");
    assert "." + "mp4" == ".mp4" && "." + "webm" == ".webm" && "." + "mkv" == ".mkv" && "." + "mov" == ".mov";
    if VideoName(key) {
      var w :| w in ws && EndsFolded(key, "." + w);
      var name, e :| key == name + "." + e && SameInAnyCase(e, w);
      assert VideoEnding(e);
    }
    if name, e :| key == name + "." + e && VideoEnding(e) {
      var w :| w in ws && SameInAnyCase(e, w);
    }
  }

  /** The videos are the files that end in `.mp4`, `.webm`, `.mkv` or `.mov`, in upper or lower case, and those whose
      name has one line break behind such an ending. */
  lemma VideosAre(key: string)
    requires forall i: nat | i < |key| :: key[i] as int < 128
    ensures IsVideo(key) <==> VideoFile(key) || exists front :: key == front + "\n" && VideoFile(front)
  {
    hide VideoName, VideoFile;
    VideoNameExactly(key);
    if key != "" && key[|key| - 1] == '\n' {
      var front := key[..|key| - 1];
      assert key == front + "\n";
      VideoNameExactly(front);
    }
    if front :| key == front + "\n" && VideoFile(front) {
      assert key[..|key| - 1] == front && key[|key| - 1] == '\n';
    }
  }

  // ---------------------------------------------------------------------------------------------
  // Windows.
  // ---------------------------------------------------------------------------------------------

  const HOUR := 3600.0
  const WINDOW := 25.0 * HOUR

  /** A batch run: when it took the time, and when it had listed the bucket. */
  datatype BatchRun = BatchRun(started: real, listed: real)

  function Since(r: BatchRun): real { r.started - WINDOW }

  predicate Lists(r: BatchRun, modified: real) { Since(r) <= modified <= r.listed }

  ghost predicate History(runs: seq<BatchRun>) {
    && runs != []
    && (forall k: nat | k < |runs| :: runs[k].started <= runs[k].listed)
    && (forall k: nat, l: nat | k < l < |runs| ::
          runs[k].started <= runs[l].started && runs[k].listed <= runs[l].listed)
  }

  ghost predicate Covered(runs: seq<BatchRun>, modified: real) {
    exists k: nat :: k < |runs| && Lists(runs[k], modified)
  }

  /** No window begins after the previous run had listed the bucket. */
  ghost predicate Overlapping(runs: seq<BatchRun>) {
    forall k: nat | k + 1 < |runs| :: Since(runs[k + 1]) <= runs[k].listed
  }

  lemma {:induction false} OverlapCovers(runs: seq<BatchRun>, n: nat, modified: real)
    requires History(runs) && Overlapping(runs) && n < |runs| && Since(runs[0]) <= modified <= runs[n].listed
    ensures Covered(runs, modified)
    decreases n
  {
    if Since(runs[n]) <= modified {
      assert Lists(runs[n], modified);
    } else {
      assert Since(runs[(n - 1) + 1]) <= runs[n - 1].listed;
      OverlapCovers(runs, n - 1, modified);
    }
  }

  /** Over a whole history every moment between the first window's start and the last listing is covered
      exactly when the windows overlap. */
  lemma NoGapExactly(runs: seq<BatchRun>)
    requires History(runs)
    ensures (forall m: real | Since(runs[0]) <= m <= runs[|runs| - 1].listed :: Covered(runs, m)) <==> Overlapping(runs)
  {
    if Overlapping(runs) {
      forall m: real | Since(runs[0]) <= m <= runs[|runs| - 1].listed ensures Covered(runs, m) {
        OverlapCovers(runs, |runs| - 1, m);
      }
    } else {
      var k: nat :| k + 1 < |runs| && Since(runs[k + 1]) > runs[k].listed;
      GapIsUncovered(runs, k);
    }
  }

  function Between(x: real, y: real): real { (x + y) / 2.0 }

  /** The moment between a listing and a window that begins later. */
  lemma GapIsUncovered(runs: seq<BatchRun>, k: nat)
    requires History(runs) && k + 1 < |runs| && Since(runs[k + 1]) > runs[k].listed
    ensures var m := Between(runs[k].listed, Since(runs[k + 1]));
      Since(runs[0]) <= m <= runs[|runs| - 1].listed && !Covered(runs, m)
  {
    var m := Between(runs[k].listed, Since(runs[k + 1]));
    assert runs[0].started <= runs[k].started;
    assert runs[k + 1].listed <= runs[|runs| - 1].listed;
    forall l: nat | l < |runs| ensures !Lists(runs[l], m) {
      if l < k { assert runs[l].listed <= runs[k].listed; }
      if l > k + 1 { assert runs[k + 1].started <= runs[l].started; }
    }
  }

  /** A daily schedule may drift by an hour: when runs start at most 25 hours apart, whatever was modified from 25
      hours before the first run on falls into the 25 hours before some run's start or between its start and its
      listing. */
  lemma DailyRunsMissNothing(runs: seq<BatchRun>, modified: real)
    requires History(runs) && forall k: nat | k + 1 < |runs| :: runs[k + 1].started - runs[k].started <= 90000.0
    requires runs[0].started - 90000.0 <= modified <= runs[|runs| - 1].listed
    ensures exists k: nat :: k < |runs| && runs[k].started - 90000.0 <= modified <= runs[k].listed
  {
    forall k: nat | k + 1 < |runs| ensures Since(runs[k + 1]) <= runs[k].listed {
      assert runs[k + 1].started - runs[k].started <= 90000.0;
    }
    OverlapCovers(runs, |runs| - 1, modified);
    var k: nat :| k < |runs| && Lists(runs[k], modified);
    assert runs[k].started - 90000.0 <= modified;
  }

  /** What a run finds, from the pages it is served. */
  function Found(r: BatchRun, pages: seq<Page>): seq<Candidate> { Recent(Listing(pages), Since(r)) }

  /** Whatever the pages, a video that stays in the bucket from its modification on is a candidate of some
      run. */
  lemma NoObjectIsMissed(runs: seq<BatchRun>, pages: seq<seq<Page>>, o: Object)
    requires History(runs) && forall k: nat | k + 1 < |runs| :: runs[k + 1].started - runs[k].started <= 90000.0
    requires |pages| == |runs| && o.key != "" && IsVideo(o.key) && o.modified.Some?
    requires runs[0].started - 90000.0 <= o.modified.value <= runs[|runs| - 1].listed
    requires forall k: nat | k < |runs| && o.modified.value <= runs[k].listed :: o in Listing(pages[k])
    ensures exists k: nat ::
      k < |runs| && Candidate(o.key, o.size, o.modified.value) in Videos(Found(runs[k], pages[k]))
  {
    hide IsVideo;
    DailyRunsMissNothing(runs, o.modified.value);
    var k: nat :| k < |runs| && runs[k].started - 90000.0 <= o.modified.value <= runs[k].listed;
    var all := Listing(pages[k]);
    var i: nat :| i < |all| && all[i] == o;
    assert Wanted(all[i], Since(runs[k]));
    RecentExactly(all, Since(runs[k]), Candidate(o.key, o.size, o.modified.value));
    VideosExactly(Found(runs[k], pages[k]), Candidate(o.key, o.size, o.modified.value));
  }

  // ---------------------------------------------------------------------------------------------
  // Ingesting.
  // ---------------------------------------------------------------------------------------------

  datatype Outcome<T> = Ok(value: T) | Err(error: string)

  /** What the object store and PeerTube answer for one candidate.  PeerTube's answer may depend on the
      metadata it is given. */
  datatype Services = Services(
    tags: Outcome<map<string, string>>,
    stream: Outcome<string>,
    upload: (Meeting, string) -> Outcome<string>)

  datatype IngestResult = Uploaded(key: string, video: string) | NotUploaded(key: string, error: string)

  /** `ingest_object`: missing tags are no failure, everything else is. */
  function IngestObject(c: Candidate, s: Services): IngestResult {
    var tags := match s.tags case Ok(t) => t case Err(_) => map[];
    match s.stream
    case Err(e) => NotUploaded(c.key, e)
    case Ok(bytes) =>
      match s.upload(MergeTags(Extract(c.key), tags), bytes)
      case Err(e) => NotUploaded(c.key, e)
      case Ok(video) => Uploaded(c.key, video)
  }

  method IngestAll(candidates: seq<Candidate>, services: seq<Services>) returns (results: seq<IngestResult>)
    requires |services| == |candidates|
    ensures |results| == |candidates|
    ensures forall i: nat | i < |candidates| :: results[i] == IngestObject(candidates[i], services[i])
  {
    results := [];
    for i := 0 to |candidates|
      invariant |results| == i
      invariant forall k: nat | k < i :: results[k] == IngestObject(candidates[k], services[k])
    {
      results := results + [IngestObject(candidates[i], services[i])];
    }
  }

  function Failed(results: seq<IngestResult>): seq<IngestResult> {
    if results == [] then []
    else (if results[0].NotUploaded? then [results[0]] else []) + Failed(results[1..])
  }

  lemma {:induction false} FailedIs(results: seq<IngestResult>)
    ensures |Failed(results)| <= |results|
    ensures Failed(results) == [] <==> forall i: nat | i < |results| :: results[i].Uploaded?
    decreases |results|
  {
    if results != [] {
      FailedIs(results[1..]);
      assert forall i: nat | i < |results[1..]| :: results[1..][i] == results[i + 1];
      assert forall i: nat | 0 < i < |results| :: results[i] == results[1..][i - 1];
      assert [] + Failed(results[1..]) == Failed(results[1..]);
    }
  }

  /** `main`: one result per video that the listing found, whatever fails; the exit code is 0 exactly when the
      listing worked and nothing failed. */
  method Batch(listing: Outcome<seq<Candidate>>, services: seq<Services>)
    returns (code: int, uploaded: nat, failed: nat)
    requires listing.Ok? ==> |services| == |Videos(listing.value)|
    ensures listing.Ok? ==> uploaded + failed == |Videos(listing.value)|
    ensures listing.Err? ==> uploaded == failed == 0
    ensures code in {0, 1}
    ensures code == 0 <==> listing.Ok? && forall i: nat | i < |Videos(listing.value)| ::
              IngestObject(Videos(listing.value)[i], services[i]).Uploaded?
    ensures listing.Ok? ==> (failed == 0 <==> code == 0)
  {
    if listing.Err? {
      return 1, 0, 0;
    }
    var results := IngestAll(Videos(listing.value), services);
    var bad := Failed(results);
    FailedIs(results);
    failed := |bad|;
    uploaded := |results| - |bad|;
    code := if bad != [] then 1 else 0;
  }
}
