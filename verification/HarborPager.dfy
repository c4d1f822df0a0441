/**
  Reading a whole Harbor list through its pages (harbor_client.py), and the check that a tag is still
  free, which is only as good as that reading (image_publish.py). The server is a function from page
  numbers to responses.
 */
module HarborPager {
  import opened Options
  import opened Text

  const PAGE_SIZE := 100
  const MAX_PAGES := 1000

  /** A row of the list: an artifact with its tags. */
  datatype Artifact = Artifact(digest: string, tags: seq<string>)

  /** The X-Total-Count header. */
  datatype Total = Absent | Unreadable | Count(n: int)

  datatype Response =
    | NoAnswer
    | Answer(status: nat, rows: Option<seq<Artifact>>, link: string, total: Total)

  datatype Error = Unauthorized | NotFound | Unavailable

  datatype Result<T> = Ok(value: T) | Err(error: Error)

  type Server = nat -> Response

  predicate SaysNext(link: string) {
    Occurs("rel=\"next\"", link) || Occurs("rel=next", link)
  }

  /** `_rows`; a body that is not JSON has no rows here, one that is not a list has none listed. */
  function RowsOf(r: Response): Result<seq<Artifact>> {
    if r.NoAnswer? then Err(Unavailable)
    else if r.status == 401 || r.status == 403 then Err(Unauthorized)
    else if r.status == 404 then Err(NotFound)
    else if r.status >= 400 || r.rows.None? then Err(Unavailable)
    else Ok(r.rows.value)
  }

  /** `_has_another_page`, after `fetched` rows of which `got` came with this page. */
  predicate AnotherPage(r: Response, fetched: nat, got: nat) {
    r.Answer? &&
    if r.link != "" then SaysNext(r.link)
    else if r.total.Count? then fetched < r.total.n
    else got >= PAGE_SIZE
  }

  /** What `_get` returns, from a page on, given the rows so far. */
  function Fetch(server: Server, page: nat, rows: seq<Artifact>): Result<seq<Artifact>>
    decreases MAX_PAGES + 1 - page
  {
    if page > MAX_PAGES then Ok(rows)
    else
      var got := RowsOf(server(page));
      if got.Err? then got
      else if AnotherPage(server(page), |rows + got.value|, |got.value|) then Fetch(server, page + 1, rows + got.value)
      else Ok(rows + got.value)
  }

  /** `_get` */
  method Get(server: Server) returns (result: Result<seq<Artifact>>)
    ensures result == Fetch(server, 1, [])
  {
    var rows, page := [], 1;
    while page <= MAX_PAGES
      invariant page <= MAX_PAGES + 1
      invariant Fetch(server, page, rows) == Fetch(server, 1, [])
      decreases MAX_PAGES + 1 - page
    {
      var got := RowsOf(server(page));
      if got.Err? {
        return got;
      }
      rows := rows + got.value;
      if !AnotherPage(server(page), |rows|, |got.value|) {
        return Ok(rows);
      }
      page := page + 1;
    }
    return Ok(rows);
  }

  // ---- A truthful server

  function Min(a: int, b: int): int {
    if a <= b then a else b
  }

  /** The first rows of the list, up to and including this page. */
  function Upto(all: seq<Artifact>, page: nat): seq<Artifact> {
    all[..Min(page * 100, |all|)]
  }

  function PageOf(all: seq<Artifact>, page: nat): seq<Artifact>
    requires page >= 1
  {
    all[Min((page - 1) * 100, |all|)..Min(page * 100, |all|)]
  }

  /** The response serves the page, and whatever it signals about further pages is true; it may
      signal by Link, by X-Total-Count, or not at all, and differently on each page. */
  ghost predicate TruthfulPage(all: seq<Artifact>, page: nat, r: Response)
    requires page >= 1
  {
    && r.Answer? && r.status == 200 && r.rows == Some(PageOf(all, page))
    && (r.link != "" ==> (Occurs("rel=\"next\"", r.link) || Occurs("rel=next", r.link) <==> page * 100 < |all|))
    && (r.total.Count? ==> r.total.n == |all|)
  }

  ghost predicate Truthful(all: seq<Artifact>, server: Server) {
    forall page | page >= 1 :: TruthfulPage(all, page, server(page))
  }

  lemma NextPage(all: seq<Artifact>, page: nat)
    requires page >= 1
    ensures Upto(all, page - 1) + PageOf(all, page) == Upto(all, page)
    ensures page * 100 >= |all| ==> Upto(all, page) == all
    ensures page * 100 < |all| ==> |PageOf(all, page)| == 100
  {
  }

  lemma {:induction false} FetchesTheRest(all: seq<Artifact>, server: Server, page: nat)
    requires Truthful(all, server) && 1 <= page <= MAX_PAGES + 1
    ensures Fetch(server, page, Upto(all, page - 1)) == Ok(Upto(all, MAX_PAGES))
    decreases MAX_PAGES + 1 - page
  {
    if page <= MAX_PAGES {
      var r := server(page);
      assert TruthfulPage(all, page, r);
      NextPage(all, page);
      FetchesTheRest(all, server, page + 1);
      if page * PAGE_SIZE >= |all| {
        assert Upto(all, MAX_PAGES) == all;
      }
    }
  }

  /** The pager returns the whole list in order, if and only if it has no more than 100,000 rows;
      of a longer one it returns the first 100,000. */
  lemma ReadsTheWholeList(all: seq<Artifact>, server: Server)
    requires Truthful(all, server)
    ensures Fetch(server, 1, []) == Ok(Upto(all, 1000))
    ensures Fetch(server, 1, []) == Ok(all) <==> |all| <= 100_000
  {
    FetchesTheRest(all, server, 1);
    if |all| <= 100_000 {
      assert Upto(all, MAX_PAGES) == all;
    } else {
      assert |Upto(all, MAX_PAGES)| < |all|;
    }
  }

  // ---- The tag check

  datatype Verdict = Free | Taken | CannotTell(error: Error)

  predicate Carried(artifacts: seq<Artifact>, tag: string) {
    exists i | 0 <= i < |artifacts| :: tag in artifacts[i].tags
  }

  /** A repository that does not exist has no tags. */
  function TagVerdict(server: Server, tag: string): Verdict {
    var read := Fetch(server, 1, []);
    if read.Ok? then (if Carried(read.value, tag) then Taken else Free)
    else if read.error.NotFound? then Free
    else CannotTell(read.error)
  }

  /** On a repository of up to 100,000 artifacts the check passes if and only if no artifact on any
      page carries the tag; beyond that it is blind. */
  lemma TagCheckIsExact(all: seq<Artifact>, server: Server, tag: string)
    requires Truthful(all, server)
    ensures TagVerdict(server, tag) == if Carried(Upto(all, 1000), tag) then Taken else Free
    ensures |all| <= 100_000 ==> TagVerdict(server, tag) == if Carried(all, tag) then Taken else Free
  {
    ReadsTheWholeList(all, server);
  }

  /** The page is served: an answer below 400 with a JSON body. */
  predicate Served(r: Response) {
    r.Answer? && r.status < 400 && r.rows.Some?
  }

  /** The pages up to this one were served, and each of them led to the next. */
  predicate GetsTo(server: Server, page: nat, rows: seq<Artifact>)
    decreases page
  {
    if page <= 1 then page == 1 && rows == []
    else
      && Served(server(page - 1)) && |server(page - 1).rows.value| <= |rows|
      && var before := rows[..|rows| - |server(page - 1).rows.value|];
      && rows == before + server(page - 1).rows.value
      && AnotherPage(server(page - 1), |rows|, |server(page - 1).rows.value|)
      && GetsTo(server, page - 1, before)
  }

  lemma FetchStep(server: Server, page: nat, rows: seq<Artifact>, got: seq<Artifact>)
    requires page <= MAX_PAGES && Served(server(page)) && got == server(page).rows.value
    requires AnotherPage(server(page), |rows + got|, |got|)
    ensures Fetch(server, page, rows) == Fetch(server, page + 1, rows + got)
  {
  }

  lemma {:induction false} FetchGoesOn(server: Server, first: nat, page: nat, rows: seq<Artifact>)
    requires first == 1 && 1 <= page <= MAX_PAGES + 1 && GetsTo(server, page, rows)
    ensures Fetch(server, first, []) == Fetch(server, page, rows)
    decreases page
  {
    if page > 1 {
      var got := server(page - 1).rows.value;
      var before := rows[..|rows| - |got|];
      FetchGoesOn(server, first, page - 1, before);
      FetchStep(server, page - 1, before, got);
    }
  }

  /** The first page that is not served decides: 404 means that the tag is free, 401 and 403 that the
      token was rejected, and anything else that Harbor cannot tell. */
  lemma VerdictByFirstFailure(server: Server, tag: string, page: nat, rows: seq<Artifact>)
    requires 1 <= page <= 1000 && GetsTo(server, page, rows) && !Served(server(page))
    ensures var r := server(page);
            TagVerdict(server, tag) ==
            if r.Answer? && r.status == 404 then Free
            else if r.Answer? && r.status in {401, 403} then CannotTell(Unauthorized)
            else CannotTell(Unavailable)
  {
    FetchGoesOn(server, 1, page, rows);
  }

  /** `assert_tag_is_free` */
  method AssertTagIsFree(server: Server, tag: string) returns (verdict: Verdict)
    ensures verdict == TagVerdict(server, tag)
  {
    var read := Get(server);
    if read.Err? {
      return if read.error.NotFound? then Free else CannotTell(read.error);
    }
    var taken := FindTag(read.value, tag);
    return if taken then Taken else Free;
  }

  method FindTag(artifacts: seq<Artifact>, tag: string) returns (found: bool)
    ensures found <==> Carried(artifacts, tag)
  {
    for i := 0 to |artifacts|
      invariant forall k | 0 <= k < i :: tag !in artifacts[k].tags
    {
      var tags := artifacts[i].tags;
      for j := 0 to |tags|
        invariant tag !in tags[..j]
      {
        if tags[j] == tag {
          return true;
        }
      }
      assert tags[..|tags|] == tags;
    }
    return false;
  }
}
