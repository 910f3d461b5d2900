# A verified model of the agent file API

An agent file API keeps Markdown, JSON and binary files in one git working tree. Agents read files and
listings, and change files by edits, appends, writes, deletions and uploads; every change names the version
it was made against. Access rules live in a file of the same tree, clients and their keys in a registry file,
and an audit log in an SQLite table. A WebDAV bridge maps PUT, DELETE and MOVE to requests of the API.

This project models that behaviour in Dafny and proves what it promises: about single calls, about sequences
of calls, and about every interleaving of request threads. `dafny verify dfyconfig.toml` checks all of it.

## How it is laid out

| file | content |
|---|---|
| Store.dfy | the state of the tree on values: working tree, directories, index, commits; validation, write phase, commit |
| Atomicity.dfy, Transactions.dfy | what a batch does as a whole, when its write phase can fail, undo |
| Validity.dfy | which operations are accepted, which error answers the others, what an accepted one commits |
| Evolution.dfy | what a batch makes of each file, where a failing batch leaves the tree, which edits are lost |
| Edits.dfy | substring search, non-overlapping count, replace-first, and what the exactly-once guard means |
| Listing.dfy, TreePaging.dfy, Keyset.dfy, Sorting.dfy | the tree walk, sorted listings, keyset paging over changing data |
| GitStorage.dfy | the store as a class whose methods change its fields in place |
| Glob.dfy, Acl.dfy, Selection.dfy | glob translation, rule matching, the pots of the ACL engine |
| Rules.dfy | what rules say in terms of their own fields: which apply, which decide, which can be deleted |
| Threads.dfy, Linear.dfy, Runs.dfy | request threads with single file writes as steps, the invariant of all their runs, and what follows |
| Schedules.dfy, Breaches.dfy, Isolation.dfy | runs put together, those in which authorisation fails, and exactly what readers can see of a batch |
| Races.dfy, Disclosure.dfy | where a request among others is answered otherwise than alone, and what replies to writes give away |
| Api.dfy | the request handlers: load the rules, check, call the store, note what to audit |
| Requests.dfy | what requests are answered, change and note, in terms of HEAD, the rules in it, names and fields |
| Registry.dfy, ClientRegistry.dfy, Principals.dfy | the client registry on values and as objects sharing one file; who a request speaks for |
| Clients.dfy | laws between registry operations: what each one makes the later ones answer |
| Audit.dfy | the audit table, its filters and its paging |
| Bridge.dfy, BridgeErrors.dfy, Tokens.dfy | the WebDAV file resource, which errors its client meets, and the token cache |
| Base.dfy, Paths.dfy | options, string order, lists; paths, kinds, principals |

Where the program changes things step by step, a class with mutable fields is proved against a function on
values (`GitStorage` against `Store.Transact`, `ClientRegistry` against `Registry.Answer`, `Api` against
`Api.Serve`, `SqliteAuditSink` against `Audit.View`, `TokenCache` against `Tokens.Serve`), and the theorems
are about those functions and their runs. What those functions compute is stated once more without them, in
fields of requests, rules, entries and trees (`Rules`, `Validity`, `Requests`, `Clients`, `BridgeErrors`,
`Principals.TokenPrincipals`, `Listing.ListingIsExact`, `Audit.QueriesAreExact`).

## Conventions

- A path is its list of segments. Distinct canonical paths (no empty segment, no `/` inside one) have
  distinct strings (`Paths.RenderIsInjective`).
- A blob's version is an injective function of its content, written `Blob(content)`; a client may also send
  any other version. SHA-256 of an API key is injective in the same way.
- Text has no carriage returns, and bytes and characters share one alphabet, so reading back what was
  written gives it again.
- A store is clean when working tree, index and HEAD agree. Directories stay on disk when their last file is
  removed, as they do in the program. All runs on all stores are sequences of store calls
  (`Runs.RunsAreSequential`), with the exception for reads that it names. What speaks of HEAD's content or of
  permissions names the clean store or the safe batches it needs: `Evolution.CleanUnlessTorn` says for every
  batch whether it keeps the store clean, and a batch is safe (`Runs.Safe`) when it does and does not take the
  ACL file away and back. A caller can compute both from the batch and the files it names. Compatible batches
  are safe (`Runs.CompatibleIsSafe`).
- New API keys are fresh, and no key is handed out twice. Clock, random keys, JSON parsing, SQL's `LIKE` and
  signature checks are parameters or predicates.

## What the proofs brought to light

- Two deletions of one path in a batch pass validation; the second one fails in the write phase. The file is
  then gone from working tree and index without a commit, and the next commit of anybody removes it from HEAD
  (`Evolution.DuplicateDeleteTearsTheTree`). `Transactions.CrashIffClash` gives the exact condition for a
  validated batch to fail, `Evolution.CleanUnlessTorn` the one for the store to be clean afterwards, and
  `Atomicity.CompatibleIffEveryOrderApplies` the one for order not to matter. The next commit carries what the
  failed batch left on paths it does not name (`Evolution.TornFilesAreCarried`, `Breaches.TornBatchReachesHead`).
- A batch that deletes the ACL file and writes it again commits and answers success. A request that tests for
  the ACL file in between takes it for absent, so that everything is allowed, and is carried out afterwards
  although every committed ACL forbids it (`Breaches.FlickeringAclAdmitsAnyone`). Without such batches and
  without torn ones every change is authorised, and so is what reads and listings give
  (`Runs.ChangesAreAuthorised`, `Runs.ReadsAreAuthorised`).
- The reply to a write with a stale version carries the file's text, and writing needs no read permission. A
  client is handed a text it may not read exactly where it may write it (`Disclosure.RulesDiscloseIff`), and a
  batch hands over nothing unreadable exactly when all text files it names are readable
  (`Disclosure.NothingUnreadableIff`).
- A read tests for its file before it takes the lock. If the file is deleted in between, the read raises an
  exception where alone it answers that there is no such file; a batch can cause that exactly when it ends
  without a file it began with (`Races.BatchCrashesReadIff`). A batch judged by rules that are replaced before
  it gets the lock is carried out all the same (`Races.OutdatedRulesAdmit`, `Races.BatchIsServedIff`).
- The documentation of reading (section 4) says that entries without read permission are hidden completely. The
  next cursor of a page names such an entry exactly when it is none of the rows given
  (`Api.CursorNamesHiddenIff`).
- Two edits of one path in a batch both pass validation against the same content; the second is lost, while the
  batch succeeds, exactly when its old text is not in what the first one left or it changes nothing
  (`Evolution.SecondEditOfAPathIsLostIff`, for any batch `Evolution.EditIsLostIff`).
- The documentation of the write path (section 5) asks that the text to be replaced occurs exactly once.
  Python's `count` skips overlapping occurrences: the guard means exactly-once, whatever the file holds, just
  for texts without a border (`Edits.GuardMeansOnceIffUnbordered`).
- The documentation of transactions (section 6) says that readers never see a state between two committed
  ones. The existence test of `get_file` runs before the lock is taken. It answers as HEAD does exactly when the
  batch being written has so far neither created nor removed the file (`Isolation.ProbeAnswersAsHeadIff`), and
  a half-written batch shows exactly when a proper prefix of it creates or removes one
  (`Isolation.HalfWrittenShowsIff`). On a tree without an ACL file one client can even be told of both names of
  a file being renamed that they do not exist, exactly if the batch deletes before it writes
  (`Isolation.ContradictsIff`); the bridge's MOVE writes first (`Bridge.MovesContradictNobody`). With an ACL file
  misses fit the order of the commits (`Isolation.LoadedMissesFitTheLog`). A file no committed tree lacks can be
  reported missing exactly by batches that take it away and back, or fail without it
  (`Isolation.MissesLastingIff`).
- The redundant delete after a MOVE names the content's hash. If somebody has created a file of the same
  content under the old name by then, it is removed (`Bridge.RedundantDeleteIsHarmlessIff`).
- A plain prefix `p` and the glob `p**` decide alike about a path exactly when the path has no newline before
  its last character (`Acl.PrefixesAreGlobs`). The order of the rules matters to a pot exactly when its best
  rules disagree (`Acl.PotIgnoresOrderIff`).
- An audited path that starts with `[` is taken for JSON when read back, and an empty list of paths comes back
  as none; all others round-trip (`Audit.PathRoundTripsIff`).
- The bridge takes skill files for binary while the API takes them for text, so no PUT of one is ever stored
  (`Bridge.KindsDifferOnSkillsOnly`, `Bridge.SkillsCannotBePut`).
- The token cache promises 60 seconds of remaining life; truncating the clock to whole seconds loses up to one
  of them. It keeps the promise exactly for tokens minted without losing a fraction (`Tokens.BufferIsKeptIff`).

## Model

| member | source | states |
|---|---|---|
| Transactions.TransactionIsAtomic | src/agent_md_api/storage/git_repo.py:226-254 | a batch with an invalid operation changes nothing and reports the first refusal in list order; a valid compatible batch cannot fail, its tree is all operations applied at once, it is one new commit, nothing stays uncommitted, and the result lists the surviving paths in order with the versions of their new contents |
| Transactions.CrashIffClash | src/agent_md_api/storage/git_repo.py:242-246 | for every batch on a clean store: a failure after validation happens if and only if the batch is valid and some operation clashes with the tree or with an earlier operation of the batch |
| Atomicity.WritePhaseIsExact | src/agent_md_api/storage/git_repo.py:321-337 | the write loop goes through exactly when no operation clashes (deleted file gone, file or directory in the way, file above), a condition on the pre-state and the list alone; then index and working tree agree |
| Atomicity.LoopActsAtOnce | src/agent_md_api/storage/git_repo.py:321-337 | on distinct paths the sequential loop has the simultaneous result: each path holds what its operation makes of the old content, every other path is unchanged |
| Atomicity.CompatibleInAnyOrder | src/agent_md_api/storage/git_repo.py:237-246 | a valid compatible batch goes through in every order and every order gives the same tree |
| Atomicity.CompatibleIffEveryOrderApplies | src/agent_md_api/storage/git_repo.py:237-246 | for a valid batch of distinct paths, compatible is exactly the condition under which every order goes through |
| Atomicity.CompatibleIsClashFree | src/agent_md_api/storage/git_repo.py:321-337 | no operation of a valid compatible batch can clash |
| Atomicity.DoneIsClean | src/agent_md_api/storage/git_repo.py:241-254 | a transaction that returns leaves working tree, index and HEAD in agreement, with exactly one commit more whose tree is the working tree; its batch was valid and free of clashes |
| Atomicity.LoopKeepsCommits | src/agent_md_api/storage/git_repo.py:321-337 | the write phase never touches the history, whether it goes through or fails |
| Transactions.CommittedOpsNameTheirVersion | src/agent_md_api/storage/git_repo.py:295-319 | every operation of a committed batch named the version of exactly the content it replaced or created its path, and no path outside the batch changes |
| Transactions.EditCanBeUndone | src/agent_md_api/storage/git_repo.py:281-289 | a committed edit whose new text starts at exactly one position of the result is undone by the swapped edit: that edit passes validation, commits, and HEAD is the old one |
| Evolution.LoopEvolves | src/agent_md_api/storage/git_repo.py:321-337 | a loop that goes through leaves each file as its own operations, in order, make it, whether or not the batch names a path twice |
| Evolution.CleanUnlessTorn | src/agent_md_api/storage/git_repo.py:241-254 | after any batch on a clean store, working tree, index and HEAD agree exactly when the batch does not pass validation, fail, and have changed a file before the first clash |
| Evolution.TornFilesAreCarried | src/agent_md_api/storage/git_repo.py:242-246 | after a failed batch the next commit, whoever makes it, has every file it does not name as the failed batch left it |
| Evolution.DuplicateDeleteTearsTheTree | src/agent_md_api/storage/git_repo.py:242-246 | on every clean store, deleting a file twice in a batch passes validation, fails half-way, removes the file uncommitted, and the next commit not naming it takes it out of HEAD |
| Evolution.EditIsLostIff | src/agent_md_api/storage/git_repo.py:334-336 | for every edit of every committed batch: it has no effect exactly when old and new text are equal or the old text starts nowhere in what the earlier operations made of the file; the first operation on a path always finds its text |
| Evolution.SecondEditOfAPathIsLostIff | src/agent_md_api/storage/git_repo.py:334-336 | two valid edits of one file always commit together, and the second is lost exactly under that condition |
| Edits.CountIsZero | src/agent_md_api/storage/git_repo.py:285-287 | the count is zero exactly when the text starts nowhere |
| Edits.CountIsOne | src/agent_md_api/storage/git_repo.py:281-289 | the non-overlapping left-to-right count is one exactly when all hits lie inside the leftmost one; the empty text counts length + 1 |
| Edits.EditIsExact | src/agent_md_api/storage/git_repo.py:334-336 | when the count is one, replacing turns before + old + after into before + new + after at the leftmost hit |
| Edits.UndoRestores | src/agent_md_api/storage/git_repo.py:281-289 | if the new text starts at exactly one position of the result, overlaps included, the reverse edit has count one and gives back the original text |
| Edits.GuardMeansOnceIffUnbordered | src/agent_md_api/storage/git_repo.py:285-289 | the guard means "starts at exactly one position" for all texts if and only if the searched text has no border |
| Validity.ValidIffAcceptable | src/agent_md_api/storage/git_repo.py:256-319 | on a clean store an operation is accepted exactly when it names the version of the file's content (none for a file that is not there), its kind fits, its fields are present, the file is there unless it is written or uploaded, and the text of an edit is counted once |
| Validity.WriteRefusals | src/agent_md_api/storage/git_repo.py:263-272 | which error a write is refused with: kind and content first, then the version, with the content in the conflict |
| Validity.UploadRefusals | src/agent_md_api/storage/git_repo.py:339-352 | which error an upload is refused with; a conflict carries no content |
| Validity.ChangeRefusals | src/agent_md_api/storage/git_repo.py:274-279 | which error a deletion, append or edit is refused with before its own fields are looked at: file, kind, version |
| Validity.FieldRefusals | src/agent_md_api/storage/git_repo.py:281-291 | which error an append or edit at the right version is refused with: missing fields, no match, several matches |
| Validity.AcceptedOperationsCommit | src/agent_md_api/storage/git_repo.py:237-254 | alone, an accepted operation on a file, or on a new path with room for one, is one commit whose tree is HEAD with the old content deleted, appended to, edited or replaced |
| Validity.AppendCommits | src/agent_md_api/storage/git_repo.py:331-333 | an append with content at the current version commits and HEAD holds old text and content |
| Validity.StepIsLocal | src/agent_md_api/storage/git_repo.py:321-337 | a step of the write phase, on any store, changes only its own path, on disk and in the index alike where it goes through; exactly when a deletion goes through, and what a step that fails leaves behind |
| Validity.ResultFilesAreExact | src/agent_md_api/storage/git_repo.py:248-254 | a reply lists the paths no operation of the batch deletes, in their order, each with the version of its content in HEAD |
| Base.DedupKeepsOrder | src/agent_md_api/storage/git_repo.py:251-251 | duplicates are dropped in the order of first occurrences |
| Validity.UntrackedDeleteFails | src/agent_md_api/storage/git_repo.py:323-326 | deleting a file the index does not have removes it from disk and then fails without a commit |
| GitStorage.GitStorage.RunTransaction | src/agent_md_api/storage/git_repo.py:226-254 | new state and outcome are those of Store.Transact; a refusal changes nothing; a valid compatible batch is committed as a whole and simultaneously |
| GitStorage.GitStorage.Execute | src/agent_md_api/storage/git_repo.py:237-254 | validate all, write all, commit once, collect the result: exactly Store.Transact on a nonempty batch |
| GitStorage.GitStorage.ValidateAll | src/agent_md_api/storage/git_repo.py:238-239 | the loop returns the first refusal against the unchanged pre-state, none if there is none |
| GitStorage.GitStorage.ValidateOperation | src/agent_md_api/storage/git_repo.py:256-293 | the refusal of one operation, with the source's order of checks: kind, content, existence, version, match count |
| GitStorage.GitStorage.CheckVersion | src/agent_md_api/storage/git_repo.py:295-319 | version check: no version for a new path, the current one for an existing path, conflict with current content and version otherwise |
| GitStorage.GitStorage.WriteAll | src/agent_md_api/storage/git_repo.py:241-243 | the loop has the effect of Store.ApplyAll, also where it stops at a failing step |
| GitStorage.GitStorage.ApplyOperation | src/agent_md_api/storage/git_repo.py:321-337 | one file write or removal and its index update, with what is left behind when the file system or git raises |
| GitStorage.GitStorage.CollectResult | src/agent_md_api/storage/git_repo.py:248-254 | the committed paths in first-occurrence order without the deleted ones, each with its new version |
| GitStorage.GitStorage.WriteBinary | src/agent_md_api/storage/git_repo.py:339-362 | an upload is a transaction of one upload: kind, version check, write, commit |
| GitStorage.GitStorage.DeleteFile | src/agent_md_api/storage/git_repo.py:364-368 | a deletion is a transaction of one deletion |
| GitStorage.GitStorage.GetFile | src/agent_md_api/storage/git_repo.py:195-207 | on a clean store a file is returned exactly when HEAD has it, with the version of the content returned |
| GitStorage.GitStorage.Walk | src/agent_md_api/storage/git_repo.py:178-193 | the recursive walk appends exactly the nodes at relative depth 1 to max(depth, 1) with no .git segment below the base, each once |
| GitStorage.GitStorage.WalkChild | src/agent_md_api/storage/git_repo.py:184-193 | the body of the walk's loop: the child and, when there is depth left, everything visible below it, each once |
| GitStorage.GitStorage.SortedChildren | src/agent_md_api/storage/git_repo.py:184-184 | the children of a directory, each once, in order |
| GitStorage.GitStorage.Collect | src/agent_md_api/storage/git_repo.py:134-143 | depth 0 gives the root's own entry (none for the tree's root), any other depth the walk |
| GitStorage.GitStorage.FindStart | src/agent_md_api/storage/git_repo.py:149-156 | the scan finds the first entry after the cursor, the end if there is none, the beginning without cursor |
| GitStorage.GitStorage.List | src/agent_md_api/storage/git_repo.py:128-159 | one page of the sorted entries of exactly the wanted nodes, with a next cursor if and only if entries remain |
| Listing.SortedEntriesAreTheListing | src/agent_md_api/storage/git_repo.py:144-144 | whatever order the entries were collected in, sorting gives the one ascending listing of the wanted nodes, without repetitions |
| Listing.ChildrenCoverVisible | src/agent_md_api/storage/git_repo.py:178-193 | everything visible from a directory lies at or below exactly its listed children |
| Paths.RenderIsInjective | src/agent_md_api/storage/git_repo.py:187-187 | distinct canonical paths have distinct strings, so a path string identifies a node |
| Listing.ListingIsExact | src/agent_md_api/storage/git_repo.py:128-193 | which roots are refused; otherwise the rows of exactly the names on disk asked for, with kind and version, beyond the cursor in the order of their paths, at most 200, and a next cursor, the last path, exactly when rows are left, which lie beyond it |
| Paths.KindsByStem | src/agent_md_api/storage/git_repo.py:61-76 | .pii.json, .skill and .md after any stem give their kinds, and .json gives json exactly unless the name ends in .pii.json |
| Paths.BinaryIsTheRest | src/agent_md_api/storage/git_repo.py:68-76 | a name is binary exactly when it has none of the suffixes, and pii.json exactly when it ends so |
| Paths.NameDecidesKind | src/agent_md_api/storage/git_repo.py:161-168 | the last name of a path decides its kind, so listings and gates agree |
| Base.LessIsFirstDifference | src/agent_md_api/storage/git_repo.py:144-144 | the string order is decided by the first position where the strings differ, a string coming after its proper prefixes |
| TreePaging.LastingPathsAreSentOnce | src/agent_md_api/storage/git_repo.py:144-159 | over any sequence of trees, one per request, a path wanted in all of them is sent exactly once to a client who follows the cursors, and the cursors strictly increase |
| TreePaging.SentRowsWereWanted | src/agent_md_api/storage/git_repo.py:144-159 | every row sent is the entry of a path wanted in one of the trees met |
| TreePaging.AStillTreeIsSentWhole | src/agent_md_api/storage/git_repo.py:144-159 | on an unchanging tree the pages concatenate to the full sorted listing in ceil(n / 200) requests, one when n is 0 |
| TreePaging.FilteredPagesAreTheFilteredListing | src/agent_md_api/api/tree.py:25-30 | filtering each page by permission gives the filtered listing, nothing lost or added at page borders |
| Keyset.FetchIsAscending | src/agent_md_api/storage/git_repo.py:149-158 | over any changing rows, everything fetched is in strictly ascending order, so no key comes twice |
| Keyset.PagingFindsEveryLastingKeyOnce | src/agent_md_api/storage/git_repo.py:149-158 | a key present in all snapshots is fetched exactly once |
| Keyset.CursorsIncrease | src/agent_md_api/storage/git_repo.py:158-158 | each next cursor is greater than the one before it |
| Keyset.PageIsExact | src/agent_md_api/storage/git_repo.py:148-159 | a page holds at most so many rows beyond the cursor in the order of their keys; rows that are left lie beyond the next cursor, which is the last key and given exactly when rows are left |
| Keyset.CursorsAreFollowed | src/agent_md_api/storage/git_repo.py:150-158 | each request carries the next cursor of the page before it and only the last page has none |
| Keyset.PagingAFixedListReturnsIt | src/agent_md_api/storage/git_repo.py:149-159 | paging a fixed list returns it in ceil(n / size) requests |
| Glob.GlobToRegex | src/agent_md_api/acl/engine.py:85-97 | the tokenising loop yields the piece sequence of the pattern |
| Glob.TranslationIsExact | src/agent_md_api/acl/engine.py:81-97 | the pieces accept a text exactly when it splits into the pattern's literals, slash-free parts for * and arbitrary parts for ** |
| Glob.CollapseKeepsLanguage | src/agent_md_api/acl/engine.py:87-93 | shortening every run of two or more stars to ** changes nothing about one-line texts |
| Glob.SingleStarsKeepDepth | src/agent_md_api/acl/engine.py:91-93 | a glob without ** accepts only texts with the pattern's number of slashes |
| Acl.EngineFollowsAccessRule | src/agent_md_api/acl/engine.py:149-188 | access is allowed exactly when there is no ACL file, or some rule applies, no top rule of the kind gate denies, and no top rule denies among pair rules if there are any, among user, client and global rules otherwise |
| Acl.PotDecisionIsTop | src/agent_md_api/acl/engine.py:131-134 | the maximum of a pot is its first rule of the highest score; a pot is silent exactly when no rule is in it |
| Acl.IdleRuleCanBeDeleted | src/agent_md_api/acl/engine.py:119-188 | a rule that does not apply, or is strictly outscored in every pot it belongs to, can be deleted from anywhere in the list without changing a decision |
| Acl.OrderIsIrrelevantWhenTiesAgree | src/agent_md_api/acl/engine.py:131-188 | where the best rules of each pot agree, only the set of rules matters: permuting or repeating rules changes no decision |
| Acl.PotIgnoresOrderIff | src/agent_md_api/acl/engine.py:131-134 | a pot decides the same for every permutation of the rules if and only if its best rules agree |
| Acl.DisagreeingTiesDependOnOrder | src/agent_md_api/acl/engine.py:131-134 | two lists with the same rules in different order that decide differently |
| Acl.PrefixesAreGlobs | src/agent_md_api/acl/engine.py:80-116 | for every path: writing each plain prefix p as p** and each absent one as ** preserves all decisions of all rule lists if and only if the path has no newline before its last character |
| Selection.MaxIsTop | src/agent_md_api/acl/engine.py:131-134 | Python's max over the kept elements is the element no kept one outscores and every earlier kept one scores below |
| Selection.DroppedIsNotMissed | src/agent_md_api/acl/engine.py:131-134 | removing an element that is not kept or is outscored leaves the maximum as it was |
| Selection.OnlyTheSetMatters | src/agent_md_api/acl/engine.py:131-134 | with agreeing ties the value at the maximum depends on the set of elements only |
| Rules.RuleForOthersIsIdle | src/agent_md_api/acl/engine.py:119-128 | a rule that says nothing about the question, names another user, client or kind, or has a plain prefix that does not start the path (leading slashes ignored), can be deleted anywhere in the list |
| Rules.RuleForOtherGlobsIsIdle | src/agent_md_api/acl/engine.py:100-107 | the same for a rule with a pattern the path does not follow |
| Rules.LoneRuleDecides | src/agent_md_api/acl/engine.py:119-188 | a lone rule whose set fields are the request's and whose prefix starts the path decides by what it says |
| Rules.AllowedByAll | src/agent_md_api/acl/engine.py:179-188 | what every applying rule allows is allowed, if one applies |
| Rules.NothingSaidMeansNo | src/agent_md_api/acl/engine.py:186-188 | where no rule applies nothing is allowed, except on a tree without an ACL file |
| Rules.DenyDecides | src/agent_md_api/acl/engine.py:149-169 | an applying rule that denies wins over all rules of its scope that allow with fewer characters besides stars, and over whatever other scopes allow unless a rule for user and client applies |
| Rules.KindGateDenies | src/agent_md_api/acl/engine.py:171-183 | an applying rule with a kind that denies wins over all rules without kind, over every scope, and over rules with a kind that allow with fewer characters |
| Rules.LongerPatternDecides | src/agent_md_api/acl/engine.py:109-134 | of two applying rules of one scope the one with more characters besides stars decides, in either order of the list |
| Rules.LongerPrefixDecides | src/agent_md_api/acl/engine.py:109-134 | of two global rules whose plain prefixes start the path the longer one decides, in either order of the list |
| Rules.PairSilencesTheRest | src/agent_md_api/acl/engine.py:152-155 | beside an applying rule for user and client, a rule without kind that does not name both can be deleted |
| Rules.ReachesIsMatching | src/agent_md_api/acl/engine.py:100-107 | a pattern matches exactly the paths that start with what follows its leading slashes or, with stars, split into its pieces |
| Rules.StarsMean | src/agent_md_api/acl/engine.py:85-97 | between two texts a single star stands for any text without a slash and a double one for any text on one line |
| Rules.ConcernsIsCandidate | src/agent_md_api/acl/engine.py:119-128 | the engine takes into account exactly the rules that say something and whose set fields are the request's |
| Rules.ScoreIsWeight | src/agent_md_api/acl/engine.py:109-116 | the score is the length of the pattern less its stars |
| Linear.RunKeepsInv | src/agent_md_api/storage/git_repo.py:237-254 | every world reachable by any interleaving of thread steps, from any store, satisfies the invariant: the store is the replay of the log plus what the lock holder has written of its batch, every set of rules in use was loaded or missed since its request came in, every file about to be read was found by a test, and every existence test says what the half-written state of its moment had |
| Runs.RunsAreSequential | src/agent_md_api/storage/git_repo.py:128-143 | for every run on every store: HEAD is always the fold of the log, the whole store is when the lock is free, and each store call in log order is what it is alone: a batch, exceptions included, always; a read, listing or load of the ACL exactly when the file or root its unlocked existence test found is still there |
| Runs.EventIsCleanUnlessTorn | src/agent_md_api/storage/git_repo.py:241-246 | a request leaves a clean store clean exactly when it is no batch that fails after having changed a file |
| Runs.CleanWhileUntorn | src/agent_md_api/storage/git_repo.py:237-254 | in every log the state between two requests is clean up to the first torn batch |
| Runs.FailuresAreClashes | src/agent_md_api/storage/git_repo.py:241-246 | in every log a batch on a clean store ends in an exception exactly when it passes validation and clashes |
| Runs.ReadsAreCommitted | src/agent_md_api/storage/git_repo.py:200-207 | in every log a file returned has the version HEAD has and the content the store has between two requests, which is HEAD's where that store is clean |
| Runs.ListingsAreSnapshots | src/agent_md_api/storage/git_repo.py:135-144 | in every log a listing returned is the page of exactly the wanted nodes of one state between two requests |
| Runs.NoLostUpdate | src/agent_md_api/storage/git_repo.py:263-279 | each operation committed on a clean store named the version of exactly the content its file had or created its path, and each file of the new tree is what the batch, operation by operation, makes of the old one, also where it names a path twice |
| Runs.AuthorsSawWhatTheyReplace | src/agent_md_api/storage/git_repo.py:295-319 | if clients, on any threads, use only versions they were handed by a read, a listing, a commit or a conflict reply before their request came in, the author of a committed change was handed the version it replaces, and any content handed with it by a clean store is the content replaced |
| Runs.MissIsExplained | src/agent_md_api/storage/git_repo.py:196-198 | a file missed while a finished batch was written is missing from the tree before or after that batch, unless the batch tears or takes the file away and back |
| Runs.CompatibleIsSafe | src/agent_md_api/storage/git_repo.py:237-246 | a valid compatible batch neither tears the store nor takes the ACL file away and back |
| Runs.AclWasCommitted | src/agent_md_api/acl/engine.py:65-77 | while the earlier batches are safe, the rules a request is judged by were committed between its start and its end |
| Runs.OnlyAllowedBatchesReachTheStore | src/agent_md_api/api/transactions.py:28-36 | a batch reaches the store only if its author may make every one of its operations, under rules committed during the request as long as the earlier batches are safe; one forbidden operation keeps the whole batch out |
| Runs.ChangesAreAuthorised | src/agent_md_api/api/transactions.py:28-36 | while the earlier batches are safe (they do not tear, nor take the ACL file away and back), every change of HEAD is named by its commit and was allowed to its author: the ACL file to the admin only, every other path by rules committed during the request |
| Runs.ReadsAreAuthorised | src/agent_md_api/api/tree.py:52-65 | under the same condition every file a client is given by a read, and every row of a file by a listing, was readable for it by rules committed during its request; the replies to writes are not meant here |
| Disclosure.ContentsAreAuthorised | src/agent_md_api/api/tree.py:52-65 | under the same condition every content a client is given, by a read or in the conflict reply to a write, is of a file it may read or, in a conflict reply, of one it may write, by rules committed during its request |
| Disclosure.BatchHandsOverIff | src/agent_md_api/storage/git_repo.py:314-319 | some run in which others write too hands the author of an admissible batch the content of a file in a conflict reply if and only if the batch names it and it is there and a text |
| Disclosure.NothingUnreadableIff | src/agent_md_api/api/files.py:28-35 | no run of an admissible batch hands its author content it may not read if and only if every text file the batch names may be read by the author |
| Disclosure.RulesDiscloseIff | src/agent_md_api/api/transactions.py:28-36 | for every file: some run hands a client judged by these rules its content although they do not let it read it, if and only if it is a text they let the client write and not read, the ACL file being writable for the admin |
| Disclosure.WritableButUnreadable | src/agent_md_api/acl/engine.py:149-188 | for every client and every path but the ACL file there are rules that let it write and not read |
| Races.LostFilesWereThere | src/agent_md_api/storage/git_repo.py:197-202 | in every run a read that raises because its file is gone had found it since the request came in, in a state the run tells |
| Races.BatchCrashesReadIff | src/agent_md_api/storage/git_repo.py:197-202 | some run of an admissible batch makes a read of a file raise an exception, where alone it answers that there is none, if and only if the batch ends without the file it began with |
| Races.BatchIsServedIff | src/agent_md_api/api/transactions.py:28-36 | a batch at the store is the whole write request served alone on the state before it exactly when the rules in force there let its author in, or cannot be read and the batch raises without effect |
| Races.OutdatedRulesAdmit | src/agent_md_api/api/transactions.py:28-36 | for every two batches the rules let in of which the first to commit installs rules that deny the other, a run in which the other is carried out by the store all the same |
| Races.ReadIsServedIff | src/agent_md_api/api/tree.py:52-65 | a read is the whole read request served alone on the state before it exactly when the file is still there and the rules in force there decide as the loaded ones, or cannot be read and the read raises |
| Runs.LoadedAclIsCommitted | src/agent_md_api/api/dependencies.py:33-38 | on a clean store the rules a request loads are those of the ACL file in HEAD |
| Schedules.Solo | src/agent_md_api/storage/git_repo.py:237-254 | every batch its author may make is carried out, refused or ended by an exception in some run from any world with the lock free |
| Breaches.FlickeringAclAdmitsAnyone | src/agent_md_api/acl/engine.py:73-76 | for every admissible batch that takes the ACL file away and has it again at the end, and any request of anybody not naming that file, a run in which the request finds no ACL file, passes the gate and is carried out after the batch, although no tree committed since it came in lacks the file |
| Breaches.RewritingTheAclFlickers | src/agent_md_api/storage/git_repo.py:321-337 | on every clean store, deleting and writing the ACL file in one batch at its current version is valid, commits and is such a batch |
| Breaches.TornBatchReachesHead | src/agent_md_api/storage/git_repo.py:242-246 | for every torn batch and every next commit, a run in which that commit changes in HEAD a path it does not name |
| Isolation.ProbeAnswersAsHeadIff | src/agent_md_api/storage/git_repo.py:197-198 | in every reachable world over a clean state the unlocked existence test answers as HEAD does if and only if what the lock holder has written so far neither creates nor removes the file; always when nothing has been written |
| Isolation.HalfWrittenShowsIff | src/agent_md_api/storage/git_repo.py:195-200 | some run of an admissible batch shows a reader a state between its writes if and only if a proper prefix of what can be applied of it creates or removes a file |
| Isolation.MissHasATree | src/agent_md_api/storage/git_repo.py:196-198 | every file reported missing is missing from the tree committed at the test or from the next one, if no batch tears or takes that file away and back |
| Isolation.MissesLastingIff | src/agent_md_api/storage/git_repo.py:196-198 | some run of an admissible batch reports a file missing that every committed tree has if and only if the batch takes it away and back, or fails when it has taken it away |
| Isolation.LoadedMissesFitTheLog | src/agent_md_api/storage/git_repo.py:196-198 | where requests load an ACL file, a request that comes in after another missed a file is explained by the same tree or a later one: misses fit the order of the commits |
| Isolation.ContradictsIff | src/agent_md_api/storage/git_repo.py:195-200 | on a tree without ACL file a batch contradicts one client in two requests, in some run, if and only if it removes a file of the old tree before it has created every file of the new one |
| Api.Api.RunTransaction | src/agent_md_api/api/transactions.py:19-44 | state and reply are those of Api.Serve: rules loaded, every operation checked, then the store; the audit note is set exactly when it committed |
| Api.Api.LoadRules | src/agent_md_api/acl/engine.py:65-77 | no ACL file means no rules; an unreadable or malformed one is an error |
| Api.OnlyAllowedPathsChange | src/agent_md_api/api/files.py:28-35 | whatever a request changes in HEAD is named by its batch and writable for its author under the committed rules, the ACL file for the admin only, and the request was answered |
| Api.AnsweredWrite | src/agent_md_api/api/files.py:61-67 | an answered one-file request made one commit, replaced the content it named, changed no other path and reports the version of the new content |
| Requests.DeniedIff | src/agent_md_api/api/transactions.py:28-35 | a request is denied, changing nothing, exactly when it names the ACL file and its author is not the admin, or another path the rules do not let its author write |
| Requests.PiiGateStopsWrites | src/agent_md_api/api/transactions.py:28-34 | a rule of kind pii.json that forbids writing denies every batch with a file, other than the ACL file, whose name ends in .pii.json, unless an allowing rule of that kind outweighs it |
| Requests.CarriedOutIff | src/agent_md_api/api/transactions.py:28-44 | a batch is carried out exactly when it is not empty, no path is closed to its author, every operation is acceptable and none clashes |
| Requests.CompatibleBatchIsCarriedOut | src/agent_md_api/api/transactions.py:28-44 | such a batch of compatible operations is answered with the number of one commit, by its author, with all changes at once, and with the new versions |
| Requests.UnacceptableIsRefused | src/agent_md_api/api/transactions.py:28-36 | otherwise an open batch is refused with the error of its first unacceptable operation and changes nothing |
| Requests.EmptyBatchIsRefused | src/agent_md_api/storage/git_repo.py:234-235 | a batch of no operations is refused as invalid |
| Requests.UnreadableRulesFailAll | src/agent_md_api/acl/engine.py:65-78 | rules that cannot be read fail every request and change nothing |
| Requests.OneFileIsServed | src/agent_md_api/api/files.py:49-87 | a request with one operation is carried out exactly when the path is open, the operation acceptable and there is room; HEAD, commit, reported version and number are those of that operation |
| Requests.TextIsReplacedIff | src/agent_md_api/api/files.py:117-125 | a full replace with text goes through exactly for an open text path with room at its current version, and HEAD, commit and reply say so |
| Requests.FormIsReplacedIff | src/agent_md_api/api/files.py:102-115 | the same for a form and binary paths: permission first, then file and reason, an empty version counting as none |
| Requests.ReadsAreExact | src/agent_md_api/api/tree.py:52-65 | a read reports a missing file, then a missing permission, and otherwise gives the version of HEAD's content, and that content for text |
| Requests.TreesAreFiltered | src/agent_md_api/api/tree.py:25-30 | of a page of the listing the directories and the readable files are kept, with the page's cursor |
| Requests.BatchesAreNoted | src/agent_md_api/api/transactions.py:37-43 | the audit note of a batch has all its paths, and says personal data exactly when one of the names ends in .pii.json |
| Requests.FilesAreNoted | src/agent_md_api/api/files.py:38-46 | the audit note of a one-file request has its path and kind, and says personal data exactly when the name ends in .pii.json; without success the note stays |
| Api.Api.EditFile | src/agent_md_api/api/files.py:49-67 | the edit as a transaction of one; on success the path holds the edited content and its version is returned; audit note exactly on success |
| Api.Api.AppendFile | src/agent_md_api/api/files.py:70-86 | the same for an append |
| Api.Api.WriteFile | src/agent_md_api/api/files.py:89-124 | permission, then form checks, then a write or an upload; on success the path holds the new content and its version is returned |
| Api.Api.DeleteFile | src/agent_md_api/api/files.py:127-147 | the deletion as a transaction of one, audit note exactly on success |
| Api.Api.GetTree | src/agent_md_api/api/tree.py:15-30 | one page of the listing reduced to directories and readable files, with the cursor of the unreduced page |
| Api.CursorNamesHiddenIff | src/agent_md_api/api/tree.py:25-30 | the next cursor of a filtered page names a file hidden from the caller exactly when it is the path of no row the caller was given |
| Api.Api.ReadFile | src/agent_md_api/api/tree.py:52-65 | a missing file is reported before the permission is checked; what is returned is content and version in HEAD |
| ClientRegistry.ServeAll | src/agent_md_api/auth/client_registry.py:53-99 | any operations by any registries over one file give the results and the file of the operations on the file alone, so many registries are one |
| ClientRegistry.ClientRegistry.Reload | src/agent_md_api/auth/client_registry.py:53-62 | both indexes become those of the file |
| ClientRegistry.ClientRegistry.VerifyApiKey | src/agent_md_api/auth/client_registry.py:70-79 | result of Registry.Answer; file unchanged, indexes in step with it |
| ClientRegistry.ClientRegistry.Get | src/agent_md_api/auth/client_registry.py:81-87 | finds the client in the reloaded index |
| ClientRegistry.ClientRegistry.ListAll | src/agent_md_api/auth/client_registry.py:89-92 | all entries of the file in order |
| ClientRegistry.ClientRegistry.ActiveSigningKey | src/agent_md_api/auth/client_registry.py:94-99 | the loop finds the first active unrevoked key with this kid |
| ClientRegistry.ClientRegistry.CreateClient | src/agent_md_api/auth/client_registry.py:103-132 | result and file of Registry.Answer; with a fresh key the incrementally updated indexes are those a reload would build |
| ClientRegistry.ClientRegistry.UpdateClient | src/agent_md_api/auth/client_registry.py:134-140 | result and file of Registry.Answer, indexes in step |
| ClientRegistry.ClientRegistry.RevokeClient | src/agent_md_api/auth/client_registry.py:142-146 | result and file of Registry.Answer, indexes in step |
| ClientRegistry.ClientRegistry.RotateApiKey | src/agent_md_api/auth/client_registry.py:148-156 | result and file of Registry.Answer; with a fresh key the key index updated in place is the one a reload would build |
| ClientRegistry.ClientRegistry.AddSigningKey | src/agent_md_api/auth/client_registry.py:158-166 | result and file of Registry.Answer, indexes in step; a kid the client already has is refused |
| ClientRegistry.ClientRegistry.RevokeSigningKey | src/agent_md_api/auth/client_registry.py:168-177 | result and file of Registry.Answer, indexes in step |
| ClientRegistry.ClientRegistry.Do | src/agent_md_api/auth/client_registry.py:70-177 | any operation by name: result and file of Registry.Answer, indexes in step |
| Registry.RunKeepsFileOk | src/agent_md_api/auth/client_registry.py:103-177 | every run with fresh keys keeps one entry per client, one client per key, kids unique per client, and a fixed user id exactly for autonomous agents |
| Registry.AnswerChangesOneEntry | src/agent_md_api/auth/client_registry.py:103-177 | an operation leaves the entries alone, appends one client with an unused id, or replaces one entry |
| Registry.VerifyIsExact | src/agent_md_api/auth/client_registry.py:70-79 | a key verifies as a client exactly when that client is unrevoked and has the key's hash |
| Registry.RevokeRevokes | src/agent_md_api/auth/client_registry.py:142-146 | revoking a client marks it revoked in the file |
| Registry.RevocationIsPermanent | src/agent_md_api/auth/client_registry.py:70-79 | in every continuation of any run a revoked client never verifies, under any key |
| Registry.RotationIsPermanent | src/agent_md_api/auth/client_registry.py:148-156 | in every continuation a rotated-out key is refused |
| Registry.RevokeKillsTheKid | src/agent_md_api/auth/client_registry.py:168-177 | revoking a signing key leaves its kid inactive at its client |
| Registry.KidRevocationIsPermanent | src/agent_md_api/auth/client_registry.py:94-99 | in every continuation a revoked kid yields no active signing key, also not by adding it again |
| Clients.ReadsShowTheFile | src/agent_md_api/auth/client_registry.py:81-92 | get gives exactly the entries of the file, list_all all of them in order, and neither changes it |
| Clients.LastEntryCounts | src/agent_md_api/auth/client_registry.py:53-62 | whatever the file holds, of several entries with one id the last one counts |
| Clients.CreatedKeysVerify | src/agent_md_api/auth/client_registry.py:103-132 | a client is created exactly with an id nobody has and a fixed user exactly for autonomous agents; the key handed out then verifies as the client asked for, unrevoked and without signing keys |
| Clients.UpdateSetsTheFlag | src/agent_md_api/auth/client_registry.py:134-140 | an update sets the flag asked for, and nothing else of this or any other client |
| Clients.RevokeMarksTheClient | src/agent_md_api/auth/client_registry.py:142-146 | a revocation marks this client and changes nothing else |
| Clients.RotatedKeysVerify | src/agent_md_api/auth/client_registry.py:148-156 | after a rotation the new key verifies as the same client with its other fields unchanged, unless it is revoked |
| Clients.AddedKeysAreActive | src/agent_md_api/auth/client_registry.py:158-166 | a new kid gives an active key that is found with the public key given, a kid the client has is refused |
| Clients.ActiveKeyIsFound | src/agent_md_api/auth/client_registry.py:94-99 | a key is found by its kid exactly when the client has it, active and not revoked |
| Clients.RevokedKeysAreDated | src/agent_md_api/auth/client_registry.py:168-177 | exactly the key with this kid is made inactive and dated |
| Clients.UnknownKeysFail | src/agent_md_api/auth/client_registry.py:70-79 | a key nobody has is refused |
| Clients.UnknownKidsAreNotFound | src/agent_md_api/auth/client_registry.py:168-177 | revoking a kid the client does not have fails and changes nothing, and no active key is found for it |
| Clients.UnknownClientsAreNotFound | src/agent_md_api/auth/client_registry.py:81-87 | whatever is asked of a client there is not fails as not found and changes nothing |
| Clients.ResultsAreAnswers | src/agent_md_api/auth/client_registry.py:70-177 | a run of operations is answered one by one, each on the file the ones before it left |
| Principals.ResolveIsExact | src/agent_md_api/auth/dependencies.py:12-44 | a principal is returned to exactly the requests entitled to it: key of an unrevoked client, and either its fixed user or the subject of a token verified under an active key of that client with that client as issuer |
| Principals.PrincipalsAreSound | src/agent_md_api/auth/dependencies.py:24-44 | after every run of registry operations a returned principal is entitled by the registry as it is then |
| Principals.RevokedClientsAreNobody | src/agent_md_api/auth/dependencies.py:27-37 | no request ever speaks through a client once it is revoked |
| Principals.RevokedKidsVouchForNobody | src/agent_md_api/auth/dependencies.py:29-37 | a token naming a revoked kid never makes anyone speak through that client |
| Principals.TokenPrincipals | src/agent_md_api/auth/dependencies.py:24-37 | a request with a token speaks for a user exactly when its header carries the key of an unrevoked client and the token, with that client as issuer, is signed under an active, unrevoked key of the client with the token's kid, unexpired, with no future issue or activation time and no audience |
| Principals.FixedPrincipals | src/agent_md_api/auth/dependencies.py:39-44 | a request without token speaks exactly for the fixed user of the unrevoked client whose key its header carries |
| Principals.OtherReplies | src/agent_md_api/auth/dependencies.py:24-29 | without a header nobody speaks; the parser raises exactly for a malformed token beside the key of an unrevoked client |
| Audit.SqliteAuditSink.Record | src/agent_md_api/audit/sqlite_sink.py:45-66 | appends the row, or fails and changes nothing when the id is taken |
| Audit.SqliteAuditSink.Clauses | src/agent_md_api/audit/sqlite_sink.py:69-90 | the conditions collected one by one hold of exactly the rows that match the filter and come after the cursor |
| Audit.SqliteAuditSink.Query | src/agent_md_api/audit/sqlite_sink.py:68-105 | the page is the first 200 matching rows after the cursor in id order |
| Audit.QueriesAreExact | src/agent_md_api/audit/sqlite_sink.py:68-105 | a page has only rows whose fields fit what the filter sets, timestamps between both ends in string order, at most 200 in the order of their ids; the rows left lie beyond the next cursor, given exactly when there are any |
| Audit.AuditPagingIsComplete | src/agent_md_api/audit/sqlite_sink.py:45-105 | with rows of arbitrary new ids recorded between requests, following the cursors returns every row that matched and was there before the first request exactly once, in order, and never one that does not match |
| Audit.CursorIffMore | src/agent_md_api/audit/sqlite_sink.py:101-105 | a next cursor is given exactly when matching rows remain beyond the page |
| Audit.PathRoundTripsIff | src/agent_md_api/audit/sqlite_sink.py:46-46 | a logged path is read back unchanged exactly when it is no string starting with [ and no empty list |
| Bridge.MoveIsARename | webdav-bridge/src/webdav_bridge/agent_api_client.py:177-187 | on every clean store the two-operation batch of a MOVE renames the file in one commit exactly when the source is at the named version and the destination is a free text path under directories; otherwise no file changes; working tree, index and HEAD agree either way |
| Bridge.ServedMove | webdav-bridge/src/webdav_bridge/agent_api_client.py:177-187 | the same through the API: it goes through exactly when, besides, both paths may be written |
| Bridge.FileResource.MoveText | webdav-bridge/src/webdav_bridge/dav_provider.py:171-187 | the text branch of a MOVE is that rename, or an error without any change of files |
| Bridge.FileResource.Move | webdav-bridge/src/webdav_bridge/dav_provider.py:149-193 | MOVE followed by the redundant delete: a rename with exactly one new commit, or no change and an error; the delete is tolerated unless the moved file became the ACL and forbids it |
| Bridge.FileResource.Delete | webdav-bridge/src/webdav_bridge/dav_provider.py:149-162 | a deletion through the API; a file already gone is success |
| Bridge.FileResource.EndWrite | webdav-bridge/src/webdav_bridge/dav_provider.py:123-147 | a successful PUT replaced exactly the version held, made one commit on one path and updates version, content, size and existence; a failed one changes neither resource nor HEAD |
| Bridge.RedundantDeleteIsHarmlessIff | webdav-bridge/src/webdav_bridge/dav_provider.py:149-162 | whatever clean store the redundant delete of a MOVE meets, it changes HEAD exactly when the old name has a file of the very content moved again and the mover may write it |
| Bridge.RecreatedSourceIsDeleted | webdav-bridge/src/webdav_bridge/dav_provider.py:149-162 | that happens: a file another author creates there with the same content is removed |
| Bridge.MovesContradictNobody | webdav-bridge/src/webdav_bridge/agent_api_client.py:181-184 | a MOVE writes before it deletes, so it never removes a file before it has created another |
| Bridge.KindsDifferOnSkillsOnly | webdav-bridge/src/webdav_bridge/dav_provider.py:30-39 | bridge and API agree on what is text exactly for paths that are no skill files |
| Bridge.SkillsCannotBePut | webdav-bridge/src/webdav_bridge/dav_provider.py:132-143 | no PUT of a skill file is ever stored |
| BridgeErrors.RepliesAreTranslated | webdav-bridge/src/webdav_bridge/dav_provider.py:59-64 | denials are told as forbidden, stale versions as conflicts, everything else as a failure |
| BridgeErrors.PutErrors | webdav-bridge/src/webdav_bridge/dav_provider.py:123-147 | a PUT is forbidden exactly on a closed path, and a conflict exactly on an open one whose kind fits, naming another version than the present one |
| BridgeErrors.DeleteErrors | webdav-bridge/src/webdav_bridge/dav_provider.py:149-162 | a DELETE is forbidden exactly on a closed path, a conflict exactly when the file is there in another version, and otherwise no error |
| BridgeErrors.MoveErrors | webdav-bridge/src/webdav_bridge/dav_provider.py:171-193 | a MOVE is forbidden exactly when a path is closed or content that is not held may not be read, and a conflict exactly when the destination is a free text path and the source is there in another version |
| Tokens.TokenCache.Get | webdav-bridge/src/webdav_bridge/agent_api_client.py:92-104 | the token handed out is the requested user's with the bridge as issuer and expires later than now + min(60, ttl) - 1; the cache keeps that for later calls |
| Tokens.EveryTokenIsGoodLongEnough | webdav-bridge/src/webdav_bridge/agent_api_client.py:92-104 | over any sequence of requests at arbitrary times, each token has the requested subject, the bridge's issuer and exp > t + min(60, ttl) - 1 |
| Tokens.BufferIsKeptIff | webdav-bridge/src/webdav_bridge/agent_api_client.py:95-103 | a token keeps the promised 60 seconds at every reuse exactly when minting it lost no fraction of a second |
| Tokens.TokensAreDated | webdav-bridge/src/webdav_bridge/agent_api_client.py:97-101 | every token in the cache was issued at the whole second of a request by its user and expires the lifetime later |
| Tokens.TokensMeetTheClaims | webdav-bridge/src/webdav_bridge/agent_api_client.py:92-104 | on a clock that does not run backwards every token of a run, when it is handed out, is the user's, issued no later than this second and unexpired, so its receiver's time checks pass |
| Tokens.LongLivedTokensAreReused | webdav-bridge/src/webdav_bridge/agent_api_client.py:95-96 | a token with more than the buffer left is handed out again |

## Left out

- FastAPI routing, pydantic validation, HTTP status codes and multipart parsing are not modelled; handlers start from parsed bodies.
- GitPython and the file system are maps: symbolic links, file permissions, I/O errors other than those from the tree's shape, and the text of commit messages are left out.
- Newline translation, UTF-8 decoding errors, MIME types, previews and sizes in listings are left out.
- Paths outside the tree and paths with empty, `.` or `..` segments are left out; paths are canonical.
- Python's regular expressions are modelled for the three pieces the glob translation emits only.
- JSON, JWT encoding, Ed25519, SHA-256 and `LIKE` are functions and predicates with the round-trip or injectivity named where it is used.
- `UserAccessRegistry` follows the pattern of `ClientRegistry` with less state and is not modelled.
- Two processes inside one registry operation, the instance file lock, the configuration and both command lines are left out.
- The audit middleware, the JSONL and the empty sink, and the audit columns client, kind, commit, reason, result and task are left out.
- COPY, the binary branch of MOVE (three separate requests by design), `get_content` and directory resources of the bridge are left out.
- Tokens carry no `jti`, so two tokens minted in the same second for one user are equal here.
- Threads: `get_file_content_bytes` is no step of the thread model, a listing is one step under the lock after its existence test, and a root reported missing by that test is not recorded.
- Isolation.ContradictsIff: for trees without an ACL file; where there is one, a second request of the same client waits for the lock, which `Isolation.LoadedMissesFitTheLog` states for all runs.
- Runs.ReadsAreAuthorised: reads and listings only; contents in replies to writes are the subject of `Disclosure.ContentsAreAuthorised`, which promises read or write permission, because the code checks no more.
- Glob.CollapseKeepsLanguage: stated for texts without a newline, since `*` matches a newline and `**` does not.
- Principals.PrincipalsAreSound: the two registry lookups of one request are one step; a revocation between them is not modelled.
- Bridge.FileResource.Move: its two requests follow each other; what other agents do between them is the subject of `Bridge.RedundantDeleteIsHarmlessIff`.
