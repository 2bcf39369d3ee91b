# Pre-commit config augmentation engine, in Dafny

This project models the pre-commit remediation engine of
`remediation/precommit/precommitconfig.go`. The engine works on a project's
`.pre-commit-config.yaml` and has two halves.

- **Selector, `GetHooks`.** It decides which hooks to recommend:
  - It collects every hook id already declared in the document.
  - For each detected language, in order, it stages that language's first
    catalog repo, but only when that repo's first hook is absent. Repos
    staged for several languages are merged by URL.
  - It adds the "common" repos, keeping only their absent hooks.
  - It sorts the result by repo URL.
- **Patcher, `UpdatePrecommitConfig` and `addHook`.** They edit the text line by line:
  - For a repo the document already declares, `- id:` lines go after the first `L + 1` lines of the text, where `L` is the 1-based line of the repo's anchor node: that is, after the line following the anchor line.
  - Otherwise a new `- repo:` / `rev:` / `hooks:` block is appended.
  - The patcher also reports whether anything changed.
  - It adds a final line break when a new repo block was written.

Modules:

- `GoStrings` (`go_strings.dfy`) covers the parts of Go's `strings` package that the engine uses:
  - `strings.Split` and `strings.Join` on `"\n"`, with their round trips.
  - Go's `<` on strings, proved to be a strict total order.
- `Precommit` (`precommit_types.dfy`) holds the data:
  - `Hook` and `Repo`, and the catalog (language to repos).
  - The errors and the response record.
  - The YAML library as an abstract input.
- `RepoSort` (`repo_sort.dfy`) is the contract of the final `sort.Slice`.
- `Selector` (`selector.dfy`) is `GetHooks`. It has two parts:
  - Its loops as methods. The language loop and the common-repo loop are proved equal to fold functions. The present-set loop is proved equal to a set comprehension. The append loop over the staged map is proved correct up to a multiset, because the map's order is not defined.
  - An independent reference description, `StagedEntries` plus `GroupedBy`, with lemmas that connect the two.
- `Patcher` (`patcher.dfy`) is `addHook` and `UpdatePrecommitConfig`. It has:
  - The copy loops as methods, proved against `AddHookSpec` and `ApplyUpdates`.
  - Lemmas about what the edits do to the lines of the text.

Runtime panics are modelled as the error value `IndexPanic`. They happen when
a catalog entry has no repo or no hook, and when the anchor line is past the
end of the text. They are not preconditions.

The catalog file's content is passed in as a parameter. Go's map iteration
order, when the staged repos are appended, is not a parameter: `AppendStaged`
picks each next key with a free choice (`:|`), so its contract holds for every order.

## Model

| member | source | states |
|---|---|---|
| GoStrings.Split | remediation/precommit/precommitconfig.go:198 | `strings.Split(s, "\n")` yields at least one piece, and no piece holds a line break |
| GoStrings.Join | remediation/precommit/precommitconfig.go:211 | `strings.Join(lines, "\n")`: the text starts with the first line, and when there is a second line a line break directly follows the first |
| GoStrings.JoinSplit | remediation/precommit/precommitconfig.go:198-211 | joining the split lines of any text gives the text back |
| GoStrings.SplitJoin | remediation/precommit/precommitconfig.go:211 | splitting the join of a non-empty list of single lines gives the list back |
| GoStrings.JoinAppend | remediation/precommit/precommitconfig.go:213-221 | joining two non-empty blocks puts exactly one line break between their joins |
| GoStrings.Less | remediation/precommit/precommitconfig.go:120 | Go's `<` on strings: nothing is below the empty string, and a proper prefix is below every string it starts |
| GoStrings.LessIrreflexive | remediation/precommit/precommitconfig.go:120 | Go's string `<` is irreflexive |
| GoStrings.LessTotal | remediation/precommit/precommitconfig.go:120 | of two distinct strings, one is `<` the other |
| GoStrings.LessTransitive | remediation/precommit/precommitconfig.go:120 | Go's string `<` is transitive |
| RepoSort.Insert | remediation/precommit/precommitconfig.go:119-121 | inserting into a URL-sorted list keeps it sorted and adds exactly that repo (multiset) |
| RepoSort.Sort | remediation/precommit/precommitconfig.go:119-121 | the result is ascending by repo URL and a permutation (multiset) of the input; ties are unordered |
| Selector.CollectPresent | remediation/precommit/precommitconfig.go:72-77 | the initial present-set is exactly the union of the hook ids of every repo of the document |
| Selector.StageLanguage | remediation/precommit/precommitconfig.go:87-98 | one language: it fails exactly when the language is in the catalog with no first repo or no first hook, and the failure is the index panic; otherwise the present-set only grows and each staged repo keeps its URL and `rev`, with hooks only appended |
| Selector.StageAll | remediation/precommit/precommitconfig.go:86-99 | the language loop over all languages in order: any failure is the index panic; otherwise the present-set only grows and each staged repo keeps its URL and `rev`, with hooks only appended |
| Selector.StageLanguages | remediation/precommit/precommitconfig.go:85-99 | the language loop computes the fold `StageAll`, and stops with the panic at the first unindexable entry |
| Selector.StageOne | remediation/precommit/precommitconfig.go:86-98 | an unsupported language, or one whose first hook is present, stages nothing and changes nothing; otherwise it stages its first repo and adds only that repo's first hook id to the present-set |
| Selector.StageAllGroups | remediation/precommit/precommitconfig.go:86-99 | the loop stages exactly the `StagedEntries` reference list. The present-set grows by their first hook ids only. The staged map has one repo per URL, with the first staged `rev` and the concatenated hooks in language order |
| Selector.StageAllPanics | remediation/precommit/precommitconfig.go:90 | the loop fails if and only if some detected, supported language has an empty repo list or a first repo with no hooks; the failure is the index panic |
| Selector.StagedEntriesFresh | remediation/precommit/precommitconfig.go:90-97 | every staged repo's first hook was absent from the document, and no two staged repos share a first hook id |
| Selector.StagedEntriesEmpty | remediation/precommit/precommitconfig.go:86-99 | nothing is staged if and only if every supported detected language's first hook id is already present |
| Selector.FilterAbsent | remediation/precommit/precommitconfig.go:106-111 | a hook is kept if and only if it is in the list and its id is not present |
| Selector.KeepCommon | remediation/precommit/precommitconfig.go:101-115 | every kept repo is a common repo with only its absent hooks, at least one of them; every common repo with an absent hook is kept |
| Selector.FilterAbsentConcat | remediation/precommit/precommitconfig.go:106-111 | filtering a concatenation of hook lists is concatenating the filtered lists, so kept hooks stay in their original order |
| Selector.KeepCommonConcat | remediation/precommit/precommitconfig.go:102-115 | keeping from a concatenation of repo lists is concatenating what is kept from each, so kept common repos stay in catalog order |
| Selector.FilterRepo | remediation/precommit/precommitconfig.go:103-111 | the hook loop copies the repo with only its absent hooks, in order, and the flag is set if and only if at least one hook is kept |
| Selector.AddCommon | remediation/precommit/precommitconfig.go:101-115 | the common-repo loop computes `KeepCommon` over the present-set left by staging |
| Selector.AppendStaged | remediation/precommit/precommitconfig.go:116-118 | whatever the map order, the result holds the earlier repos plus every staged repo, once each (multiset) |
| Selector.GetHooks | remediation/precommit/precommitconfig.go:62-123 | a parse error or an unreadable catalog is an error; a panicking language loop is the panic; otherwise the result is sorted by URL and a permutation of the kept common repos plus the staged language repos |
| Selector.SelectionEmptyIff | remediation/precommit/precommitconfig.go:86-115 | the selection is empty if and only if every supported language's first hook and every common hook are already in the document |
| Selector.StagedNoneIff | remediation/precommit/precommitconfig.go:86-99 | the language loop stages nothing if and only if every supported detected language's first hook is present, and then it leaves the present-set unchanged |
| Selector.KeepCommonEmptyIff | remediation/precommit/precommitconfig.go:101-115 | no common repo is kept if and only if every hook of every common repo is present |
| Selector.SelectionFirstHooksAbsent | remediation/precommit/precommitconfig.go:86-115 | staging only grows the present-set; every kept common hook is absent after staging; every staged repo's first hook was absent before |
| Patcher.Indentation | remediation/precommit/precommitconfig.go:181-189 | two spaces when there is no `hooks` sequence, otherwise one space less than its column (none for column 0) |
| Patcher.SpliceHookLines | remediation/precommit/precommitconfig.go:198-210 | the output is input lines `[0, L+1)`, one `- id:` line per hook in order, then the remaining input lines; it panics when `L+1` exceeds the line count |
| Patcher.AppendRepoBlock | remediation/precommit/precommitconfig.go:213-220 | the output is the input lines followed by `- repo:`, `  rev:`, `  hooks:` and one `- id:` line per hook |
| Patcher.AddHookSpec | remediation/precommit/precommitconfig.go:173-223 | the definition of `addHook`: the result is the parse error exactly when the text does not parse; the only other errors are the repo-not-found error for the update's URL and the index panic, and both happen only for a repo already declared; for a new repo a parsable text is always edited |
| Patcher.AddHook | remediation/precommit/precommitconfig.go:173-223 | `addHook` returns the parse error, the repo-not-found error, the panic or the spliced or appended text, as `AddHookSpec` defines |
| Patcher.AddHookExistingRepo | remediation/precommit/precommitconfig.go:191-211 | for a declared repo the output's lines are the input's first `L+1` lines, the hook lines, then the rest; the line count grows by the number of hooks; deleting the inserted block gives the input back |
| Patcher.AddHookNewRepo | remediation/precommit/precommitconfig.go:212-222 | for a new repo the output is the input, a line break and the new block; its lines are the input's lines plus the block's lines, three plus one per hook |
| Patcher.SpliceLines | remediation/precommit/precommitconfig.go:198-211 | splitting a joined splice of single lines gives the splice back; removing the block gives the original lines |
| Patcher.RepoAlreadyExists | remediation/precommit/precommitconfig.go:148-156 | the search is true if and only if some repo of the original document has the update's URL |
| Patcher.StartText | remediation/precommit/precommitconfig.go:136-142 | the text edits start from is never empty, and is the content itself whenever the content is not empty |
| Patcher.ApplyUpdates | remediation/precommit/precommitconfig.go:147-165 | the edit loop as a fold: an error is the parse error, the index panic, or a repo-not-found error for an update whose URL the original parse does declare; when every update is a new repo and every text parses, the run succeeds |
| Patcher.UpdateStep | remediation/precommit/precommitconfig.go:147-165 | one pass of the loop: an error in the edit of update `i` is the error of the rest of the run, otherwise the run continues from the edited text; the newline flag is set after update `i` exactly when it was set before or update `i` is a new repo |
| Patcher.UpdatePrecommitConfig | remediation/precommit/precommitconfig.go:125-171 | a parse error or any `addHook` error gives no response; otherwise `OriginalInput` is the content, `FinalOutput` is the updates applied in turn to the content (to `repos:` when it is empty) with one trailing line break if and only if some update's URL is absent from the original parse, and `IsChanged` holds if and only if there is an update |
| Patcher.ApplyUpdatesCompose | remediation/precommit/precommitconfig.go:147-165 | running `a + b` is running `a`, then `b` on its result; an error anywhere discards all earlier edits |
| Patcher.ApplyUpdatesLineCount | remediation/precommit/precommitconfig.go:147-165 | a successful run adds exactly the hooks of every update plus three header lines per new repo |
| Patcher.ApplyUpdatesAppendOnly | remediation/precommit/precommitconfig.go:157-165 | when every update is a new repo, the starting text is a prefix of the result |

## Left out

- The request is JSON-decoded at lines 64 and 127. Its errors are ignored there, and this model takes the content and the languages as parameters instead.
- `getConfigFile` (lines 47-60) reads an environment variable and a file. The model receives the catalog as an `Option` parameter, and a missing catalog is the read error of lines 79-82. The catalog's own parse error is ignored at line 84, so it is not modelled. The parsed catalog is the input.
- The YAML library (`yaml.Unmarshal`, `yaml.Node`) and `permissions.IterateNode` are abstract functions of the text. They are `Yaml.decode`, and `Yaml.nodes` giving the column of the first `hooks` sequence and the anchor position for a repo name.
  - `permissions.IterateNode` is not part of this model. The anchor line `L` is whatever it reports.
  - Whether `L` points at the `- repo:` line or the line after it decides where the hook lines land in the YAML. The model does not know, and says nothing about it.
- Selector.GetHooks: the result for a panicking language loop is an error value. Go instead aborts the process.
- Selector.GetHooks: the contract states sortedness and permutation but not the exact order of equal URLs. `sort.Slice` is unstable, and the map iteration at line 116 has no defined order.
- GoStrings.Less compares characters, while Go compares UTF-8 bytes. The two orders agree on code points, but the model does not encode strings into bytes.
- Patcher.AddHookExistingRepo and Patcher.ApplyUpdatesLineCount assume that no URL, `rev` or hook id contains a line break. With one, the line counts differ; the text still comes out as `AddHookSpec` says.
- `fmt.Errorf` messages are reduced to the error kinds `ParseError` and `RepoNotFound`.
- Running the engine twice and getting no further change (idempotence) depends on the YAML parser reading the edited text back. That parser is abstract here. `Selector.SelectionEmptyIff` states the part that depends only on the selector.
- `kbanalysis/src/issues-util.ts` is GitHub REST client plumbing around network calls. `dependabotconfig_test.go` tests `UpdateDependabotConfig`, whose implementation is not part of this model.

Behaviours of the code a reader might not expect:
- Only the first hook id of a staged language repo is marked present (line 97). Its other hooks can still be staged again through another language.
- Common hooks are never added to the present-set, and common repos are never merged with staged language repos. Both can therefore list the same URL.
- An `addHook` error discards every earlier edit and the whole response (lines 161-163).
- With empty content and no updates the output is `repos:`, yet `IsChanged` is false (lines 140-142).
- The indentation comes from the first `hooks` sequence anywhere in the document, not from the repo being edited (line 182).
