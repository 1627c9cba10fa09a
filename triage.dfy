/** The `triage` routine of the issue-triage command: resolve the client, parse
    `org/repo`, fetch every open issue page by page, drop the issues already
    labelled under `prefix/`, then walk the rest asking the operator for one
    label suffix per issue. The hosting service, the credential lookup and the
    terminal are oracles passed in as values; every request and label call the
    routine makes is returned as a log. */
module Triage {
  import opened GoStrings

  // ---------------------------------------------------------------- data model

  datatype Option<T> = None | Some(value: T)

  /** The errors `triage` can return. `MissingToken` is the one the client
      constructor reports; the others carry the underlying message. */
  datatype Error =
    | MissingToken
    | InvalidRepo(orgrepo: string)
    | ApiError(reason: string)
    | ReadError(reason: string)

  datatype Result<T> = Success(value: T) | Failure(error: Error)

  /** Pass, or the error that stopped the run. */
  datatype Outcome = Pass | Fail(error: Error)

  /** The text `triage` returns for each error (printed as `error: <text>`):
      the fixed token message, `invalid repo: ` followed by the reference as
      given, and the underlying message of a failed call or read. */
  function ErrorText(e: Error): string {
    match e
    case MissingToken => "set github.token in your .gitconfig"
    case InvalidRepo(s) => "invalid repo: " + s
    case ApiError(r) => r
    case ReadError(r) => r
  }

  /** An issue as the search returns it; only label names are used. */
  datatype Issue = Issue(number: int, title: string, body: string, labels: seq<string>)

  datatype Repo = Repo(org: string, name: string)

  /** The invalid-repo message names the rejected reference exactly, and a
      missing token is never reported as an invalid reference. */
  lemma {:induction false} ErrorTextDistinct(a: string, b: string)
    ensures ErrorText(InvalidRepo(a)) == ErrorText(InvalidRepo(b)) ==> a == b
    ensures ErrorText(MissingToken) != ErrorText(InvalidRepo(a))
  {
    var p := "invalid repo: ";
    if ErrorText(InvalidRepo(a)) == ErrorText(InvalidRepo(b)) {
      assert a == (p + a)[|p|..] && b == (p + b)[|p|..];
    }
    assert ErrorText(MissingToken)[0] == 's' && ErrorText(InvalidRepo(a))[0] == 'i';
  }

  // ---------------------------------------------------------- repo reference

  /** `strings.Split(orgrepo, "/")` must give exactly two parts. */
  function ParseRepo(orgrepo: string): (r: Result<Repo>)
    ensures r.Success? <==> Count(orgrepo, '/') == 1
    ensures r.Failure? ==> r.error == InvalidRepo(orgrepo)
    ensures r.Success? ==> r.value.org + "/" + r.value.name == orgrepo
    ensures r.Success? ==> '/' !in r.value.org && '/' !in r.value.name
  {
    SplitJoin(orgrepo, '/');
    var parts := Split(orgrepo, '/');
    if |parts| != 2 then Failure(InvalidRepo(orgrepo))
    else
      assert Join(parts, '/') == parts[0] + ['/'] + Join(parts[1..], '/');
      Success(Repo(parts[0], parts[1]))
  }

  /** The accepted references are exactly the joins of two slash-free names,
      empty names included. */
  lemma ParseRepoOfJoin(org: string, name: string)
    requires '/' !in org && '/' !in name
    ensures ParseRepo(org + "/" + name) == Success(Repo(org, name))
  {
    JoinSplit([org, name], '/');
    assert Join([org, name], '/') == org + "/" + name by {
      assert [org, name][1..] == [name];
    }
  }

  /** An empty repository name is accepted. */
  lemma ParseRepoAcceptsExamples()
    ensures ParseRepo("org/repo") == Success(Repo("org", "repo"))
    ensures ParseRepo("org/") == Success(Repo("org", ""))
  {
    assert "org" + "/" + "repo" == "org/repo";
    ParseRepoOfJoin("org", "repo");
    assert "org" + "/" + "" == "org/";
    ParseRepoOfJoin("org", "");
  }

  /** A missing or an extra slash is refused with `invalid repo`. */
  lemma ParseRepoRejectsExamples()
    ensures ParseRepo("orgrepo") == Failure(InvalidRepo("orgrepo"))
    ensures ParseRepo("") == Failure(InvalidRepo(""))
    ensures ParseRepo("a/b/c") == Failure(InvalidRepo("a/b/c"))
  {
    NoSlashCount("orgrepo");
    assert "a/b/c"[1..] == "/b/c" && "/b/c"[1..] == "b/c" && "b/c"[1..] == "/c";
    NoSlashCount("c");
    assert Count("/c", '/') == 1;
    assert Count("a/b/c", '/') == 2;
  }

  /** The message printed for `a/b/c`. */
  lemma ParseRepoRejectMessage()
    ensures ErrorText(ParseRepo("a/b/c").error) == "invalid repo: a/b/c"
  {
    ParseRepoRejectsExamples();
    assert ErrorText(InvalidRepo("a/b/c")) == "invalid repo: " + "a/b/c";
  }

  lemma {:induction false} NoSlashCount(s: string)
    requires '/' !in s
    ensures Count(s, '/') == 0
    decreases |s|
  {
    if |s| > 0 {
      assert '/' !in s[1..] by {
        forall i | 0 <= i < |s[1..]| ensures s[1..][i] != '/' { assert s[1..][i] == s[i + 1]; }
      }
      NoSlashCount(s[1..]);
    }
  }

  // -------------------------------------------------------------- pagination

  const PerPage: nat := 100

  /** The search query for all open issues of `repo`. */
  function Query(repo: Repo): string {
    "repo:" + repo.org + "/" + repo.name + " is:issue is:open"
  }

  /** The query sent is the reference exactly as the operator typed it,
      between `repo:` and the open-issue filter. */
  lemma QueryNamesRepo(orgrepo: string)
    requires ParseRepo(orgrepo).Success?
    ensures Query(ParseRepo(orgrepo).value) == "repo:" + orgrepo + " is:issue is:open"
  {
  }

  datatype SearchRequest = SearchRequest(query: string, page: nat, perPage: nat)

  /** One page of results and the next page number, 0 when there is none. */
  datatype Page = Page(issues: seq<Issue>, nextPage: nat)

  /** The search endpoint, as an oracle. */
  type PageSource = SearchRequest -> Result<Page>

  /** `requested` is a sequence of requests the fetch loop can have issued:
      each for `query` with 100 per page, the first for page 0 (unset), and
      each later one for the page the previous response named, which was not
      0. */
  predicate IsChain(fetch: PageSource, query: string, requested: seq<SearchRequest>) {
    && (forall k :: 0 <= k < |requested| ==>
          requested[k].query == query && requested[k].perPage == PerPage)
    && (|requested| > 0 ==> requested[0].page == 0)
    && (forall k :: 0 <= k < |requested| - 1 ==>
          fetch(requested[k]).Success? && fetch(requested[k]).value.nextPage != 0 &&
          requested[k + 1].page == fetch(requested[k]).value.nextPage)
  }

  /** The last request failed. */
  predicate LastFailed(fetch: PageSource, requested: seq<SearchRequest>) {
    |requested| > 0 && fetch(requested[|requested| - 1]).Failure?
  }

  /** The last response said there is no next page. */
  predicate LastIsFinal(fetch: PageSource, requested: seq<SearchRequest>) {
    |requested| > 0 && fetch(requested[|requested| - 1]).Success? &&
    fetch(requested[|requested| - 1]).value.nextPage == 0
  }

  /** The issues of every response, in fetch order. */
  function Gathered(fetch: PageSource, requested: seq<SearchRequest>): seq<Issue>
    requires forall k :: 0 <= k < |requested| ==> fetch(requested[k]).Success?
    decreases |requested|
  {
    if |requested| == 0 then []
    else Gathered(fetch, requested[..|requested| - 1]) + fetch(requested[|requested| - 1]).value.issues
  }

  datatype Fetched = Fetched(issues: seq<Issue>) | FetchFailed(error: Error) | OutOfFuel

  /** What the fetch loop of `triage` returns after the requests `requested`:
      the concatenated pages once a page says there is no next one, the first
      page error as it is, and (in this model only) `OutOfFuel` once `fuel`
      requests have been made without reaching the last page. */
  predicate FetchedAs(fetch: PageSource, query: string, fuel: nat, requested: seq<SearchRequest>, r: Fetched) {
    && IsChain(fetch, query, requested)
    && |requested| <= fuel
    && (r.Fetched? <==> LastIsFinal(fetch, requested))
    && (r.Fetched? ==> r.issues == Gathered(fetch, requested))
    && (r.FetchFailed? <==> LastFailed(fetch, requested))
    && (r.FetchFailed? ==> r.error == fetch(requested[|requested| - 1]).error)
    && (r.OutOfFuel? ==> |requested| == fuel)
  }

  /** The page loop: ask for page 0, append each page's issues, and follow the
      next page number until it is 0; a page error is returned at once. */
  method FetchAll(fetch: PageSource, query: string, fuel: nat)
    returns (r: Fetched, requested: seq<SearchRequest>)
    ensures FetchedAs(fetch, query, fuel, requested, r)
  {
    var page: nat := 0;
    var issues: seq<Issue> := [];
    requested := [];
    while |requested| < fuel
      invariant IsChain(fetch, query, requested)
      invariant |requested| <= fuel
      invariant forall k :: 0 <= k < |requested| ==> fetch(requested[k]).Success?
      invariant |requested| > 0 ==> fetch(requested[|requested| - 1]).value.nextPage == page != 0
      invariant |requested| == 0 ==> page == 0
      invariant issues == Gathered(fetch, requested)
      decreases fuel - |requested|
    {
      var req := SearchRequest(query, page, PerPage);
      ChainExtend(fetch, query, requested, req);
      ghost var before := requested;
      requested := requested + [req];
      var res := fetch(req);
      if res.Failure? {
        return FetchFailed(res.error), requested;
      }
      assert requested[..|requested| - 1] == before;
      issues := issues + res.value.issues;
      if res.value.nextPage == 0 {
        return Fetched(issues), requested;
      }
      page := res.value.nextPage;
    }
    r := OutOfFuel;
  }

  /** Asking for the page the last response named extends a chain. */
  lemma ChainExtend(fetch: PageSource, query: string, requested: seq<SearchRequest>, req: SearchRequest)
    requires IsChain(fetch, query, requested)
    requires req.query == query && req.perPage == PerPage
    requires |requested| == 0 ==> req.page == 0
    requires |requested| > 0 ==>
      fetch(requested[|requested| - 1]).Success? &&
      fetch(requested[|requested| - 1]).value.nextPage == req.page != 0
    ensures IsChain(fetch, query, requested + [req])
  {
    var ext := requested + [req];
    forall k | 0 <= k < |ext| - 1
      ensures fetch(ext[k]).Success? && fetch(ext[k]).value.nextPage != 0 &&
              ext[k + 1].page == fetch(ext[k]).value.nextPage
    {
      assert ext[k] == requested[k];
    }
  }

  /** Two request chains of one page source agree on their common length
      (used by `FetchIndependentOfFuel`). */
  lemma {:induction false} ChainDeterministic(fetch: PageSource, query: string,
                                              a: seq<SearchRequest>, b: seq<SearchRequest>)
    requires IsChain(fetch, query, a) && IsChain(fetch, query, b)
    requires |a| <= |b|
    ensures a == b[..|a|]
    decreases |a|
  {
    if |a| > 1 {
      var a', b' := a[..|a| - 1], b[..|a| - 1];
      assert IsChain(fetch, query, a') by {
        forall k | 0 <= k < |a'| - 1
          ensures fetch(a'[k]).Success? && fetch(a'[k]).value.nextPage != 0 &&
                  a'[k + 1].page == fetch(a'[k]).value.nextPage
        { assert a'[k] == a[k] && a'[k + 1] == a[k + 1]; }
      }
      assert IsChain(fetch, query, b') by {
        forall k | 0 <= k < |b'| - 1
          ensures fetch(b'[k]).Success? && fetch(b'[k]).value.nextPage != 0 &&
                  b'[k + 1].page == fetch(b'[k]).value.nextPage
        { assert b'[k] == b[k] && b'[k + 1] == b[k + 1]; }
      }
      ChainDeterministic(fetch, query, a', b');
      var n := |a| - 1;
      assert a[n - 1] == b[n - 1] by { assert a'[n - 1] == b'[n - 1]; }
      assert a[n] == b[n];
      assert a == a' + [a[n]];
      assert b[..|a|] == b' + [b[n]];
    } else if |a| == 1 {
      assert a[0] == b[0];
      assert b[..1] == [b[0]];
    }
  }

  /** The fuel bound is harmless: whenever some chain within the fuel reaches
      the last page, the fetch loop makes exactly that chain's requests and
      returns the gathered pages. */
  lemma FetchIndependentOfFuel(fetch: PageSource, query: string, fuel: nat, requested: seq<SearchRequest>,
                               r: Fetched, chain: seq<SearchRequest>)
    requires FetchedAs(fetch, query, fuel, requested, r)
    requires IsChain(fetch, query, chain) && LastIsFinal(fetch, chain) && |chain| <= fuel
    ensures r.Fetched? && requested == chain
  {
    if |requested| < |chain| {
      ChainDeterministic(fetch, query, requested, chain);
      assert false;
    } else if |requested| > |chain| {
      ChainDeterministic(fetch, query, chain, requested);
      assert false;
    } else {
      ChainDeterministic(fetch, query, requested, chain);
    }
  }

  /** A response with no next page ends the chain: nothing is requested after
      it. */
  lemma ChainEndsAtFinalPage(fetch: PageSource, query: string, requested: seq<SearchRequest>, k: nat)
    requires IsChain(fetch, query, requested)
    requires k < |requested|
    requires fetch(requested[k]).Success? && fetch(requested[k]).value.nextPage == 0
    ensures k == |requested| - 1
  {
  }

  // --------------------------------------------------------- namespace filter

  /** The issue already carries a label in the `prefix/` namespace. */
  predicate Triaged(issue: Issue, prefix: string) {
    exists l :: l in issue.labels && HasPrefix(l, prefix + "/")
  }

  /** The issues not yet triaged under `prefix`, in their original order. */
  function Untriaged(issues: seq<Issue>, prefix: string): seq<Issue>
    decreases |issues|
  {
    if |issues| == 0 then []
    else
      var last := issues[|issues| - 1];
      Untriaged(issues[..|issues| - 1], prefix) + (if Triaged(last, prefix) then [] else [last])
  }

  /** The filter loop: scan each issue's labels for one starting with
      `prefix + "/"`, stopping at the first, and keep the issue when there is
      none. */
  method FilterUntriaged(issues: seq<Issue>, prefix: string) returns (filtered: seq<Issue>)
    ensures filtered == Untriaged(issues, prefix)
  {
    filtered := [];
    var namespace := prefix + "/";
    for i := 0 to |issues|
      invariant filtered == Untriaged(issues[..i], prefix)
    {
      var issue := issues[i];
      var found := false;
      for j := 0 to |issue.labels|
        invariant found <==> exists k :: 0 <= k < j && HasPrefix(issue.labels[k], namespace)
      {
        if HasPrefix(issue.labels[j], namespace) {
          found := true;
          break;
        }
      }
      assert found <==> Triaged(issue, prefix);
      if !found {
        filtered := filtered + [issue];
      }
      assert issues[..i + 1][..i] == issues[..i];
    }
    assert issues[..|issues|] == issues;
  }

  /** The indices `k < n` for which `keep(k)` holds, in increasing order. */
  function Selected(n: nat, keep: nat -> bool): (ix: seq<nat>)
    ensures forall j :: 0 <= j < |ix| ==> ix[j] < n
    decreases n
  {
    if n == 0 then [] else Selected(n - 1, keep) + (if keep(n - 1) then [n - 1] else [])
  }

  /** `Selected` lists every selected index once, in strictly increasing
      order. */
  lemma {:induction false} SelectedSpec(n: nat, keep: nat -> bool)
    ensures forall i, j :: 0 <= i < j < |Selected(n, keep)| ==> Selected(n, keep)[i] < Selected(n, keep)[j]
    ensures forall k: nat :: k in Selected(n, keep) <==> k < n && keep(k)
    decreases n
  {
    if n > 0 {
      SelectedSpec(n - 1, keep);
    }
  }

  /** The indices of the issues the filter keeps. */
  function Kept(issues: seq<Issue>, prefix: string): seq<nat> {
    Selected(|issues|, (k: nat) => k < |issues| && !Triaged(issues[k], prefix))
  }

  /** The filter keeps exactly the issues with no label in the namespace, and
      keeps them in their original relative order: the result is the input
      read at the strictly increasing indices `Kept`. */
  lemma UntriagedIsSelection(issues: seq<Issue>, prefix: string)
    ensures |Untriaged(issues, prefix)| == |Kept(issues, prefix)|
    ensures forall j :: 0 <= j < |Kept(issues, prefix)| ==>
              Untriaged(issues, prefix)[j] == issues[Kept(issues, prefix)[j]]
    ensures forall i, j :: 0 <= i < j < |Kept(issues, prefix)| ==> Kept(issues, prefix)[i] < Kept(issues, prefix)[j]
    ensures forall k: nat :: k in Kept(issues, prefix) <==> k < |issues| && !Triaged(issues[k], prefix)
  {
    var keep := (k: nat) => k < |issues| && !Triaged(issues[k], prefix);
    SelectedSpec(|issues|, keep);
    UntriagedPrefixIsSelection(issues, prefix, |issues|);
    assert issues[..|issues|] == issues;
  }

  lemma {:induction false} UntriagedPrefixIsSelection(issues: seq<Issue>, prefix: string, m: nat)
    requires m <= |issues|
    ensures var ix := Selected(m, (k: nat) => k < |issues| && !Triaged(issues[k], prefix));
            |Untriaged(issues[..m], prefix)| == |ix| &&
            forall j :: 0 <= j < |ix| ==> Untriaged(issues[..m], prefix)[j] == issues[ix[j]]
    decreases m
  {
    if m > 0 {
      UntriagedPrefixIsSelection(issues, prefix, m - 1);
      assert issues[..m][..m - 1] == issues[..m - 1];
    }
  }

  /** Membership: an issue survives the filter iff it was fetched and has no
      label in the namespace. */
  lemma {:induction false} UntriagedMembers(issues: seq<Issue>, prefix: string)
    ensures forall x :: x in Untriaged(issues, prefix) <==> x in issues && !Triaged(x, prefix)
    decreases |issues|
  {
    if |issues| > 0 {
      var init := issues[..|issues| - 1];
      UntriagedMembers(init, prefix);
      assert issues == init + [issues[|issues| - 1]];
    }
  }

  /** Filtering distributes over concatenation, so it filters each page on its
      own and keeps page order. */
  lemma {:induction false} UntriagedAppend(xs: seq<Issue>, ys: seq<Issue>, prefix: string)
    ensures Untriaged(xs + ys, prefix) == Untriaged(xs, prefix) + Untriaged(ys, prefix)
    decreases |ys|
  {
    if |ys| > 0 {
      var ys' := ys[..|ys| - 1];
      UntriagedAppend(xs, ys', prefix);
      assert (xs + ys)[..|xs + ys| - 1] == xs + ys';
    } else {
      assert xs + ys == xs;
    }
  }

  /** An issue without labels is never filtered out, whatever the prefix. */
  lemma UnlabelledKept(issues: seq<Issue>, issue: Issue, prefix: string)
    requires issue in issues && issue.labels == []
    ensures issue in Untriaged(issues, prefix)
  {
    UntriagedMembers(issues, prefix);
  }

  /** A label equal to the prefix itself, without the slash, is not in the
      namespace: an issue carrying only that label is kept. */
  lemma BarePrefixNotTriaged(issues: seq<Issue>, issue: Issue, prefix: string)
    requires issue in issues && issue.labels == [prefix]
    ensures issue in Untriaged(issues, prefix)
  {
    UntriagedMembers(issues, prefix);
    assert !HasPrefix(prefix, prefix + "/");
  }

  /** Filtering an already filtered list changes nothing. */
  lemma UntriagedIdempotent(issues: seq<Issue>, prefix: string)
    ensures Untriaged(Untriaged(issues, prefix), prefix) == Untriaged(issues, prefix)
  {
    UntriagedMembers(issues, prefix);
    AllUntriagedKept(Untriaged(issues, prefix), prefix);
  }

  lemma {:induction false} AllUntriagedKept(issues: seq<Issue>, prefix: string)
    requires forall x :: x in issues ==> !Triaged(x, prefix)
    ensures Untriaged(issues, prefix) == issues
    decreases |issues|
  {
    if |issues| > 0 {
      AllUntriagedKept(issues[..|issues| - 1], prefix);
      assert issues[..|issues| - 1] + [issues[|issues| - 1]] == issues;
    }
  }

  // -------------------------------------------------------------- triage loop

  /** One operator response: a token, or a failed read. `fmt.Scanf("%s")`
      only ever returns non-empty tokens without white space; the model admits
      any string as a token. */
  datatype Read = Token(word: string) | ReadFailed(reason: string)

  /** The response to the `k`-th prompt; reading past the scripted input is
      end of input, which `fmt.Scanf` reports as an error. */
  function ReadAt(input: seq<Read>, k: nat): Read {
    if k < |input| then input[k] else ReadFailed("EOF")
  }

  /** One add-labels call: on `number` in `org/repo`, with the given labels. */
  datatype LabelCall = LabelCall(org: string, repo: string, number: int, labels: seq<string>)

  /** The add-labels endpoint, as an oracle. */
  type LabelApi = LabelCall -> Outcome

  /** What the terminal shows for one issue: number, title, body and the
      remaining count. */
  datatype Screen = Screen(number: int, title: string, body: string, remaining: nat)

  /** The label the loop writes for a token. */
  function NamespacedLabel(prefix: string, token: string): string {
    prefix + "/" + token
  }

  /** The response asks for a label (a token other than `next`). */
  predicate AsksLabel(r: Read) {
    r.Token? && r.word != "next"
  }

  /** The call for the `k`-th issue, when its response asks for a label. */
  function CallAt(repo: Repo, filtered: seq<Issue>, prefix: string, input: seq<Read>, k: nat): LabelCall
    requires k < |filtered| && AsksLabel(ReadAt(input, k))
  {
    LabelCall(repo.org, repo.name, filtered[k].number, [NamespacedLabel(prefix, ReadAt(input, k).word)])
  }

  /** The calls made for the first `n` issues. */
  function Calls(repo: Repo, filtered: seq<Issue>, prefix: string, input: seq<Read>, n: nat): seq<LabelCall>
    requires n <= |filtered|
    decreases n
  {
    if n == 0 then []
    else Calls(repo, filtered, prefix, input, n - 1) +
         (if AsksLabel(ReadAt(input, n - 1)) then [CallAt(repo, filtered, prefix, input, n - 1)] else [])
  }

  /** The `k`-th issue is passed: the read succeeded and the token was `next`
      or the label call succeeded. */
  predicate StepOk(repo: Repo, filtered: seq<Issue>, prefix: string, input: seq<Read>, api: LabelApi, k: nat)
    requires k < |filtered|
  {
    ReadAt(input, k).Token? &&
    (ReadAt(input, k).word == "next" || api(CallAt(repo, filtered, prefix, input, k)) == Pass)
  }

  /** The error with which the `k`-th step aborts. */
  function StepError(repo: Repo, filtered: seq<Issue>, prefix: string, input: seq<Read>, api: LabelApi, k: nat): Error
    requires k < |filtered| && !StepOk(repo, filtered, prefix, input, api, k)
  {
    match ReadAt(input, k)
    case ReadFailed(reason) => ReadError(reason)
    case Token(_) => api(CallAt(repo, filtered, prefix, input, k)).error
  }

  /** What the cursor loop does: it shows the issues in order, the one at
      index `k` with `|filtered| - k` remaining, makes the calls `Calls` for
      the issues shown, and passes iff every issue was shown and every step
      passed; otherwise it stops at the first step that fails, with that
      step's error. */
  predicate LoopBehaviour(repo: Repo, filtered: seq<Issue>, prefix: string, input: seq<Read>, api: LabelApi,
                          outcome: Outcome, shown: seq<Screen>, calls: seq<LabelCall>)
  {
    && |shown| <= |filtered|
    && (forall k :: 0 <= k < |shown| ==>
          shown[k] == Screen(filtered[k].number, filtered[k].title, filtered[k].body, |filtered| - k))
    && (forall k :: 0 <= k < |shown| - 1 ==> StepOk(repo, filtered, prefix, input, api, k))
    && calls == Calls(repo, filtered, prefix, input, |shown|)
    && (outcome.Pass? <==>
          |shown| == |filtered| && (|shown| == 0 || StepOk(repo, filtered, prefix, input, api, |shown| - 1)))
    && (outcome.Fail? ==>
          |shown| > 0 && !StepOk(repo, filtered, prefix, input, api, |shown| - 1) &&
          outcome.error == StepError(repo, filtered, prefix, input, api, |shown| - 1))
  }

  /** The cursor loop over the filtered issues. */
  method TriageLoop(repo: Repo, filtered: seq<Issue>, prefix: string, input: seq<Read>, api: LabelApi)
    returns (outcome: Outcome, shown: seq<Screen>, calls: seq<LabelCall>)
    ensures LoopBehaviour(repo, filtered, prefix, input, api, outcome, shown, calls)
    ensures forall k :: 0 <= k < |shown| ==> 1 <= shown[k].remaining <= |filtered|
  {
    shown, calls := [], [];
    var ix := 0;
    while ix < |filtered|
      invariant ix <= |filtered| && |shown| == ix
      invariant forall k :: 0 <= k < ix ==>
        shown[k] == Screen(filtered[k].number, filtered[k].title, filtered[k].body, |filtered| - k)
      invariant forall k :: 0 <= k < ix ==> StepOk(repo, filtered, prefix, input, api, k)
      invariant calls == Calls(repo, filtered, prefix, input, ix)
    {
      var issue := filtered[ix];
      shown := shown + [Screen(issue.number, issue.title, issue.body, |filtered| - ix)];
      var v := ReadAt(input, ix);
      if v.ReadFailed? {
        return Fail(ReadError(v.reason)), shown, calls;
      }
      if v.word != "next" {
        var call := LabelCall(repo.org, repo.name, issue.number, [NamespacedLabel(prefix, v.word)]);
        calls := calls + [call];
        var res := api(call);
        if res.Fail? {
          return res, shown, calls;
        }
      }
      ix := ix + 1;
    }
    outcome := Pass;
  }

  /** The calls correspond exactly to the responses that ask for a label: call
      `j` is made on the issue at the `j`-th such index, with the single label
      `prefix/token`, so the calls follow the filtered order and at most one is
      made per issue. */
  lemma {:induction false} CallsAreLabelTokens(repo: Repo, filtered: seq<Issue>, prefix: string, input: seq<Read>, n: nat)
    requires n <= |filtered|
    ensures var ix := Selected(n, (k: nat) => AsksLabel(ReadAt(input, k)));
            |Calls(repo, filtered, prefix, input, n)| == |ix| &&
            forall j :: 0 <= j < |ix| ==>
              ReadAt(input, ix[j]).Token? && ReadAt(input, ix[j]).word != "next" &&
              Calls(repo, filtered, prefix, input, n)[j] ==
              LabelCall(repo.org, repo.name, filtered[ix[j]].number, [prefix + "/" + ReadAt(input, ix[j]).word])
    decreases n
  {
    var keep := (k: nat) => AsksLabel(ReadAt(input, k));
    SelectedSpec(n, keep);
    if n > 0 {
      CallsAreLabelTokens(repo, filtered, prefix, input, n - 1);
      SelectedSpec(n - 1, keep);
    }
  }

  /** If the scripted input runs out before the last issue while every
      scripted step passes, the loop shows one issue past the script and
      stops there with the end-of-input read error. */
  lemma ShortInputFails(repo: Repo, filtered: seq<Issue>, prefix: string, input: seq<Read>, api: LabelApi,
                        outcome: Outcome, shown: seq<Screen>, calls: seq<LabelCall>)
    requires LoopBehaviour(repo, filtered, prefix, input, api, outcome, shown, calls)
    requires |input| < |filtered|
    requires forall k :: 0 <= k < |input| ==> StepOk(repo, filtered, prefix, input, api, k)
    ensures |shown| == |input| + 1 && outcome == Fail(ReadError("EOF"))
  {
    var n := |input|;
    assert ReadAt(input, n) == ReadFailed("EOF");
    assert !StepOk(repo, filtered, prefix, input, api, n);
    if |shown| > n + 1 {
      assert false;
    } else if |shown| <= n {
      assert false;
    }
  }

  /** Answering `next` to every prompt makes no label call. */
  lemma {:induction false} NextOnlyNoCalls(repo: Repo, filtered: seq<Issue>, prefix: string, input: seq<Read>, n: nat)
    requires n <= |filtered|
    requires forall k :: 0 <= k < n ==> ReadAt(input, k) == Token("next")
    ensures Calls(repo, filtered, prefix, input, n) == []
    decreases n
  {
    if n > 0 {
      NextOnlyNoCalls(repo, filtered, prefix, input, n - 1);
    }
  }

  /** Answering `wontfix` under prefix `triage` makes one call, adding the
      label `triage/wontfix` to the issue shown. */
  lemma WontfixExample(repo: Repo, issue: Issue)
    ensures Calls(repo, [issue], "triage", [Token("wontfix")], 1) ==
            [LabelCall(repo.org, repo.name, issue.number, ["triage/wontfix"])]
  {
    assert NamespacedLabel("triage", "wontfix") == "triage/wontfix";
  }

  // ------------------------------------------------------------------ re-runs

  /** The issue as the service holds it after `calls`: the labels of every
      call on its number are added, in call order. */
  function Relabel(issue: Issue, calls: seq<LabelCall>): Issue
    decreases |calls|
  {
    if |calls| == 0 then issue
    else
      var before := Relabel(issue, calls[..|calls| - 1]);
      var c := calls[|calls| - 1];
      if c.number == issue.number then before.(labels := before.labels + c.labels) else before
  }

  function RelabelAll(issues: seq<Issue>, calls: seq<LabelCall>): seq<Issue> {
    seq(|issues|, k requires 0 <= k < |issues| => Relabel(issues[k], calls))
  }

  /** Every label the loop writes is in the namespace it filters on. */
  lemma WrittenLabelTriages(prefix: string, token: string)
    ensures HasPrefix(NamespacedLabel(prefix, token), prefix + "/")
  {
  }

  /** After a call that adds a namespaced label to an issue, that issue counts
      as triaged. */
  lemma {:induction false} RelabelTriages(issue: Issue, calls: seq<LabelCall>, prefix: string, j: nat)
    requires j < |calls| && calls[j].number == issue.number
    requires exists l :: l in calls[j].labels && HasPrefix(l, prefix + "/")
    ensures Triaged(Relabel(issue, calls), prefix)
    decreases |calls|
  {
    var before := Relabel(issue, calls[..|calls| - 1]);
    if j < |calls| - 1 {
      RelabelTriages(issue, calls[..|calls| - 1], prefix, j);
      var l :| l in before.labels && HasPrefix(l, prefix + "/");
      assert l in Relabel(issue, calls).labels;
    } else {
      var l :| l in calls[j].labels && HasPrefix(l, prefix + "/");
      assert l in Relabel(issue, calls).labels;
    }
  }

  /** The re-run property: once the calls of a run have been applied, filtering
      the same issues with the same prefix again drops every issue that was
      labelled, so a re-run shows only issues that were skipped or never
      reached. */
  lemma RerunExcludesLabelled(repo: Repo, filtered: seq<Issue>, prefix: string, input: seq<Read>, n: nat,
                              issues: seq<Issue>)
    requires n <= |filtered|
    ensures var calls := Calls(repo, filtered, prefix, input, n);
            forall x :: x in Untriaged(RelabelAll(issues, calls), prefix) ==>
              forall k :: 0 <= k < n && AsksLabel(ReadAt(input, k)) ==> x.number != filtered[k].number
  {
    var calls := Calls(repo, filtered, prefix, input, n);
    var keep := (k: nat) => AsksLabel(ReadAt(input, k));
    var ix := Selected(n, keep);
    CallsAreLabelTokens(repo, filtered, prefix, input, n);
    SelectedSpec(n, keep);
    UntriagedMembers(RelabelAll(issues, calls), prefix);
    forall x, k | x in Untriaged(RelabelAll(issues, calls), prefix) && 0 <= k < n && AsksLabel(ReadAt(input, k))
      ensures x.number != filtered[k].number
    {
      assert k in ix;
      var j :| 0 <= j < |ix| && ix[j] == k;
      var i :| 0 <= i < |issues| && RelabelAll(issues, calls)[i] == x;
      if x.number == filtered[k].number {
        var written := prefix + "/" + ReadAt(input, k).word;
        WrittenLabelTriages(prefix, ReadAt(input, k).word);
        assert written in calls[j].labels;
        RelabelNumber(issues[i], calls);
        RelabelTriages(issues[i], calls, prefix, j);
        assert false;
      }
    }
  }

  lemma {:induction false} RelabelNumber(issue: Issue, calls: seq<LabelCall>)
    ensures Relabel(issue, calls).number == issue.number
    decreases |calls|
  {
    if |calls| > 0 {
      RelabelNumber(issue, calls[..|calls| - 1]);
    }
  }

  // --------------------------------------------------------------- the routine

  /** How a run ends. `PagingUnfinished` is the model's name for a run whose
      page chain had not ended after `fuel` requests. */
  datatype Run = Finished(outcome: Outcome) | PagingUnfinished

  /** `triage(orgrepo, prefix)`. The client needs a token (`credential`, the
      result of the configuration lookup); then the reference is parsed, the
      pages fetched, the issues filtered and walked. The first error ends the
      run: no request is made before the token and the reference are good, and
      no issue is shown or labelled unless every page was fetched. */
  method Triage(credential: Option<string>, orgrepo: string, prefix: string, fetch: PageSource, fuel: nat,
                input: seq<Read>, api: LabelApi)
    returns (run: Run, requested: seq<SearchRequest>, shown: seq<Screen>, calls: seq<LabelCall>)
    ensures credential.None? ==>
      run == Finished(Fail(MissingToken)) && requested == [] && shown == [] && calls == []
    ensures credential.Some? && ParseRepo(orgrepo).Failure? ==>
      run == Finished(Fail(InvalidRepo(orgrepo))) && requested == [] && shown == [] && calls == []
    ensures credential.Some? && ParseRepo(orgrepo).Success? ==>
      var repo := ParseRepo(orgrepo).value;
      && IsChain(fetch, Query(repo), requested)
      && |requested| <= fuel
      && (LastFailed(fetch, requested) ==>
            run == Finished(Fail(fetch(requested[|requested| - 1]).error)) && shown == [] && calls == [])
      && (LastIsFinal(fetch, requested) ==>
            run.Finished? &&
            LoopBehaviour(repo, Untriaged(Gathered(fetch, requested), prefix), prefix, input, api,
                          run.outcome, shown, calls))
      && (!LastFailed(fetch, requested) && !LastIsFinal(fetch, requested) ==>
            run == PagingUnfinished && |requested| == fuel && shown == [] && calls == [])
  {
    requested, shown, calls := [], [], [];
    if credential.None? {
      return Finished(Fail(MissingToken)), requested, shown, calls;
    }
    var parsed := ParseRepo(orgrepo);
    if parsed.Failure? {
      return Finished(Fail(parsed.error)), requested, shown, calls;
    }
    var repo := parsed.value;
    var fetched;
    fetched, requested := FetchAll(fetch, Query(repo), fuel);
    match fetched
    case FetchFailed(e) =>
      run := Finished(Fail(e));
    case OutOfFuel =>
      run := PagingUnfinished;
    case Fetched(issues) =>
      var filtered := FilterUntriaged(issues, prefix);
      var outcome;
      outcome, shown, calls := TriageLoop(repo, filtered, prefix, input, api);
      run := Finished(outcome);
  }
}
