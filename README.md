# triage — a Dafny model

`triage <org/repo> <prefix>` is an interactive issue-triage command for a
repository on the hosting service. It builds an API client from the token in
the local git configuration and splits `org/repo` on `/`. It then pages through
a search for the repository's open issues and drops every issue that already
has a label starting with `prefix/`. On the rest it works one issue at a time:
it shows the issue and reads one token from the operator. The token `next`
skips the issue. Any other token adds the label `prefix/token` to the issue.
The first error ends the run.

This project models the routine `triage` (main.go:32-114) as imperative Dafny.
The outside world is replaced by values passed in:

- the token lookup is an `Option<string>`;
- the search endpoint is a function from a `SearchRequest` to a page or an error;
- operator input is a sequence of tokens or failed reads;
- the add-labels endpoint is a function from a `LabelCall` to success or an error.

Each method returns a log of what it did: the search requests made, the
screens shown and the label calls made. The contracts are stated over these
logs.

Files:

- `go_strings.dfy` (module `GoStrings`): Go's `strings.Split` for a
  one-character separator, `strings.Join` as its inverse, and
  `strings.HasPrefix`, with the round-trip lemmas.
- `triage.dfy` (module `Triage`): the data model and the four stages of
  `triage`. These are the reference parse `ParseRepo`, the page loop
  `FetchAll`, the label filter `FilterUntriaged` (specified by the function
  `Untriaged`) and the cursor loop `TriageLoop`. `Triage` composes them in the
  source's order.

Behaviour of the code worth noting:

- Extra command-line arguments are ignored, not refused (main.go:17-21).
- A label counts as "in the namespace" only through `strings.HasPrefix(name,
  prefix + "/")`. A label equal to `prefix` alone does not count.
- End of operator input is a read error (`fmt.Scanf` fails). The model gives it
  the reason `"EOF"`.

## Model

| member | source | states |
|---|---|---|
| GoStrings.Split | main.go:38 | `strings.Split` yields one more part than there are separators in the input |
| GoStrings.SplitJoin | main.go:38 | splitting loses nothing: joining the parts gives the input back, and no part contains the separator |
| GoStrings.JoinSplit | main.go:38 | splitting the join of a non-empty list of separator-free parts (empty parts allowed) gives those parts back |
| GoStrings.HasPrefix | main.go:74 | `strings.HasPrefix(s, prefix)` holds iff `s` is `prefix` followed by some string |
| Triage.ErrorText | main.go:41 | defines the message table (no contract of its own): `set github.token in your .gitconfig` for a missing token (main.go:165), `invalid repo: ` followed by the reference for a bad reference, and the underlying message for a failed call or read |
| Triage.ErrorTextDistinct | main.go:41 | the invalid-repo message determines the rejected reference, and differs from the missing-token message (main.go:165) |
| Triage.ParseRepo | main.go:38-45 | accepted iff the reference holds exactly one `/`; on acceptance `org + "/" + repo` is the input and neither part holds a slash; otherwise the error is `InvalidRepo(orgrepo)` |
| Triage.ParseRepoOfJoin | main.go:38-45 | every pair of slash-free names, empty ones included, is accepted from its join and parsed back to itself |
| Triage.ParseRepoAcceptsExamples | main.go:38-45 | `org/repo` is accepted, and so is `org/` with an empty repository name |
| Triage.ParseRepoRejectsExamples | main.go:38-45 | `orgrepo`, the empty string and `a/b/c` are refused with `InvalidRepo` of the input |
| Triage.ParseRepoRejectMessage | main.go:40-42 | the message for the reference `a/b/c` is `invalid repo: a/b/c` |
| Triage.QueryNamesRepo | main.go:54 | the search query is `repo:` + the reference exactly as typed + ` is:issue is:open` |
| Triage.FetchAll | main.go:47-66 | the requests form a chain: page 0 first, then each next page the previous response named. The result is the concatenation in fetch order of every page once a page has next page 0. A page error is returned as it is, straight after the failing request. `OutOfFuel` only after `fuel` requests. |
| Triage.ChainExtend | main.go:61-65 | asking for the page the last response named, or for page 0 at the start, extends a valid request chain |
| Triage.ChainDeterministic | main.go:53-66 | two request chains over the same page source agree on their common length |
| Triage.FetchIndependentOfFuel | main.go:53-66 | whenever some request chain within the fuel reaches a page with next page 0, the fetch loop makes exactly that chain's requests and returns the gathered pages, so the fuel bound changes nothing for a source whose pages end |
| Triage.ChainEndsAtFinalPage | main.go:61-63 | nothing is requested after a response with next page 0 |
| Triage.FilterUntriaged | main.go:68-83 | the nested loop (with `found` and `break`) returns exactly `Untriaged(issues, prefix)` |
| Triage.UntriagedIsSelection | main.go:68-83 | the filter result is the input read at strictly increasing indices, and an index is among them iff the issue there has no label starting with `prefix/` (order kept, exactly the untriaged kept) |
| Triage.UntriagedMembers | main.go:70-83 | an issue is in the result iff it was in the input and has no label in the namespace |
| Triage.UntriagedAppend | main.go:59-83 | filtering the concatenated pages equals concatenating the filtered pages |
| Triage.UnlabelledKept | main.go:73-82 | an issue with no labels, anywhere in the input, is in the filter result whatever the prefix |
| Triage.BarePrefixNotTriaged | main.go:74 | an issue whose only label is the prefix itself, without the slash, is in the filter result |
| Triage.UntriagedIdempotent | main.go:68-83 | filtering a filtered list changes nothing |
| Triage.ReadAt | main.go:97-100 | defines the scripted input (no contract of its own): the k-th prompt gets the k-th scripted response, and past the end of the script the read fails with `EOF` |
| Triage.ShortInputFails | main.go:97-100 | when the script ends before the last issue and every scripted step passes, the loop shows exactly one issue past the script and fails with `ReadError("EOF")`, as `fmt.Scanf` does at end of input (main.go:116-124) |
| Triage.TriageLoop | main.go:85-113 | issues are shown in filtered order, the one at index `ix` with `len(filtered) - ix` remaining (between 1 and N). The calls made are exactly `Calls` for the issues shown. The loop passes iff every issue was shown and every step passed. Otherwise it stops at the first failed read or failed label call, with that error, and shows nothing after it. Earlier calls stay in the log. |
| Triage.CallsAreLabelTokens | main.go:102-110 | the j-th label call is made on the issue at the j-th index whose token is not `next`. It carries the single label `prefix/token`. Calls follow filtered order, at most one per issue. |
| Triage.NextOnlyNoCalls | main.go:102-104 | answering `next` to every prompt makes no label call |
| Triage.WontfixExample | main.go:106 | token `wontfix` under prefix `triage` makes one call adding `triage/wontfix` to the issue shown |
| Triage.WrittenLabelTriages | main.go:74 | every label the loop writes, `prefix/token`, starts with `prefix/` and so meets the filter's exclusion test |
| Triage.RelabelTriages | main.go:74 | once a call adds a namespaced label to an issue, the relabelled issue counts as triaged |
| Triage.RerunExcludesLabelled | main.go:106 | once a run's calls are applied, filtering again with the same prefix drops every issue that run labelled |
| Triage.Triage | main.go:32-113 | a missing token fails with `MissingToken` before the reference is checked. An invalid reference fails with `InvalidRepo` before any request. A page error ends the run with that error, with nothing shown and no label call. After the last page, the loop runs over `Untriaged` of the gathered issues. |

## Left out

- `main` and `usage` (main.go:14-30): process exit handling. Fewer than two arguments print a usage line and exit 1. Extra arguments are ignored. An error is printed as `error: <text>`; `ErrorText` gives that text.
- `githubToken` (main.go:162-169): it runs `git config` and trims the output. It is an oracle (`credential`) here.
- `githubClient` (main.go:126-139): the client construction is not modelled. Only its one error, the missing token, is kept.
- The network calls `g.Search.Issues` and `g.Issues.AddLabelsToIssue`: they become oracle functions plus logs of the requests and calls. Both oracles are functions of their argument: two identical label calls get the same answer, and a page request repeated with the same page number gets the same page, so a service that answers a repeated request differently is not expressible. The oracles may also fail with any `Error` value, including `MissingToken`, `InvalidRepo` and `ReadError`, which the real calls never return; the contracts pass such an error through unchanged.
- Terminal output: the clear sequence and the printed issue are not modelled. Only the values shown are (`Screen`: number, title, body, remaining count).
- `read` / `fmt.Scanf` (main.go:116-124): a scripted sequence of tokens and failed reads. Reading past its end fails with `"EOF"`.
- Read: the model admits any string as a token, including the empty string and strings with white space, which `fmt.Scanf("%s")` never returns; such a token (other than `next`) makes a call with the label `prefix/` followed by it.
- The commented-out comment fetching (main.go:91-93, main.go:141-160): it is dead code.
- Nil pointers in `*l.Name`, `*i.Number`, `*i.Title`, `*i.Body`: every field is present in the model.
- Triage.FetchAll: the source loops forever when the service never returns next page 0. The model stops after `fuel` requests and returns `OutOfFuel`, which `Triage` reports as `PagingUnfinished`. The source has no such outcome.
- GoStrings.Split: only single-character separators are modelled, which is all the source uses.
