# Verified model of a collection of Python utility scripts

This project models the sequential logic of a small collection of Python
utilities in Dafny and proves properties of that model:

- `AutoDict` (python/commons/collection_utils.py). This is a dictionary that
  creates an empty nested level on every missing key. Its `set` and `get` walk
  a list of keys, popping it empty as they go.
- The Valheim server-log watcher (misc/valheim/parse-log.py). It turns
  "character spawned" and "zdo destroyed" log lines into death, respawn, login
  and logout reports. It keeps two dictionaries, `players` and `death_states`.
- The bash-history de-duplicator (python/clean-bash-history.py).
- The `retry` and `dryrun_stub` decorators (python/commons/decorators.py).
- The GitLab webhook helper (python/gitlab-jenkins-webhook.py). It derives the
  project path from the git remote, percent-encodes it and updates or creates
  the Jenkins hook.
- The GitLab merge-request checker (python/gitlab-mr-checker.py). It builds
  the table from commit sha to merge-request iid, looks each pipeline's commit
  up in it, classifies the pipeline and stops at the date cutoff.
- The Vault secret-tree copy (python/copy-vault-secrets.py). This is a
  pre-order walk with per-subtree `Forbidden` recovery, followed by rewriting
  each path and writing the secret to its new place.

The files are:

| file | module |
|---|---|
| wrappers.dfy | `Wrappers`: `Option` and `Result` |
| auto_dict.dfy | `CollectionUtils` |
| parse_log.dfy | `ValheimLog` |
| clean_bash_history.dfy | `BashHistory` |
| decorators.dfy | `Decorators` |
| gitlab_json.dfy | `GitLabJson`: `__lift`, which is the same in both GitLab scripts |
| jenkins_webhook.dfy | `JenkinsWebhook` |
| mr_checker.dfy | `MrChecker` |
| copy_vault_secrets.dfy | `VaultCopy` |

Some code in the scripts updates state in place:

- `AutoDict`'s entries.
- The caller's key list.
- The Valheim dictionaries.
- The loops that fill `existing`, `mr_heads` and the list of writes.

That code is written as classes and methods with loops. Most methods are
proved against a specification function: `Descend`, `GetPath` and `SetPath`
for `AutoDict`, `Step` and `Run` for the Valheim loop, `MrHeads` for the
merge-request table and `Walk` for the secret copy. `Decorators.Retry`,
`BashHistory.Deduplicate` and `MrChecker.ReportPipelines` state their
properties directly in their contracts. The lookups, the string rewriting and
the decorator logic are pure functions.

Inputs from the outside are parameters:

- HTTP responses, Vault answers and git commits are records.
- Log lines come already matched against the two regular expressions.
- The results of successive calls of a decorated function are a sequence.

In `AutoDict`, a nested level is a `Dict` value inside its parent. The Python
variable `current` is modelled by its key path from the root, called the
cursor.

## Model

| member | source | states |
|---|---|---|
| CollectionUtils.GetItemAt | python/commons/collection_utils.py:90-96 | A present key gives its stored node and the map is unchanged. A missing key gives a fresh empty level, which is then stored at that path; every unrelated path reads as before |
| CollectionUtils.Descend | python/commons/collection_utils.py:101-104 | The `current = current[head]` walk either reaches a dictionary at the whole path or fails with `TypeError` |
| CollectionUtils.SetPath | python/commons/collection_utils.py:101-106 | After a successful `set` with a key list, the value is stored at the full path and the parent path is a dictionary |
| CollectionUtils.PutAtFacts | python/commons/collection_utils.py:105 | `current[k] = value` puts the value at parent path + `k`, updates that level's entries by exactly that key, and leaves every unrelated path alone |
| CollectionUtils.DescendExisting | python/commons/collection_utils.py:101-104 | Walking a path whose levels all exist changes nothing |
| CollectionUtils.DescendFacts | python/commons/collection_utils.py:101-104 | A successful walk either changes nothing (the path existed) or ends on a new empty level; paths that are not prefixes of the walk are unchanged |
| CollectionUtils.DescendSnoc | python/commons/collection_utils.py:103-104 | One more key in the walk is exactly one more `__getitem__` step, failing with `TypeError` on a leaf |
| CollectionUtils.DescendFailsIffLeaf | python/commons/collection_utils.py:101-104 | The walk fails exactly when some prefix of the path leads to a non-dictionary value |
| CollectionUtils.LeafStep | python/commons/collection_utils.py:103-105 | When the walk steps onto an existing non-dictionary value, nothing has been created on the way, and the walk of all keys but the last fails |
| CollectionUtils.SetPathFrame | python/commons/collection_utils.py:101-106 | `set` with a list leaves every other existing entry untouched (every path that is neither a level on the way nor below the target) |
| CollectionUtils.GetPath | python/commons/collection_utils.py:111-115 | `get` with a list ends with the returned node stored at the full path and every level above it a dictionary. It fails, with `TypeError`, exactly when a strict prefix of the key path leads to a leaf |
| CollectionUtils.GetPathFrame | python/commons/collection_utils.py:111-115 | `get` with a list leaves every other existing entry untouched (every path that is neither a level on the way nor below the target) |
| CollectionUtils.SetPathFailsIffLeaf | python/commons/collection_utils.py:101-105 | `set` with a list fails, with `TypeError`, exactly when a strict prefix of the key path leads to a leaf |
| CollectionUtils.GetPathPresent | python/commons/collection_utils.py:111-115 | `get` with a list on an existing path returns the stored node and changes nothing |
| CollectionUtils.GetPathMissing | python/commons/collection_utils.py:111-115 | `get` with a list on a missing path through no leaf does not raise; it returns a fresh empty level, which is now stored at the path |
| CollectionUtils.KeyList.PopFirst | python/commons/collection_utils.py:103 | `pop(0)` removes and returns the first key; on an empty list it raises `IndexError` and changes nothing |
| CollectionUtils.KeyList.PopLast | python/commons/collection_utils.py:105 | `pop()` removes and returns the last key; on an empty list it raises `IndexError` and changes nothing |
| CollectionUtils.AutoDict.GetItem | python/commons/collection_utils.py:90-96 | `d[k]` returns the stored node unchanged, or inserts a fresh empty level under a missing key and returns it |
| CollectionUtils.AutoDict.WalkToParent | python/commons/collection_utils.py:101-104 | The `while len(keys) > 1` loop pops all keys but the last and leaves the dictionary as `Descend` does; on stepping into a leaf it pops one more key, raises `TypeError` and has changed nothing |
| CollectionUtils.AutoDict.Set | python/commons/collection_utils.py:98-106 | A string key is plain assignment returning `None`. An empty list raises `IndexError`. Otherwise the list is consumed, the new entries are those of `SetPath`, and the innermost level is returned; on `TypeError` nothing changes and only the keys after the one applied to the leaf remain |
| CollectionUtils.AutoDict.Get | python/commons/collection_utils.py:108-115 | A string key is a plain lookup: it raises `KeyError` and creates nothing when the key is missing. An empty list raises `IndexError`. Otherwise the list is consumed and the result and new entries are those of `GetPath` |
| ValheimLog.Step | misc/valheim/parse-log.py:43-63 | One line adds to `players` at most the ZDOID it writes and keeps every other entry. Only a spawn line changes `death_states`. A spawn line always reports, and any other line reports at most a LOG OUT |
| ValheimLog.SpawnZeroReportsDeath | misc/valheim/parse-log.py:47-49 | A spawn with ZDOID "0" reports a death, sets the dead flag and leaves `players` untouched |
| ValheimLog.SpawnNonZero | misc/valheim/parse-log.py:50-56 | A non-zero spawn sets `players[zdoid] = name`. If the player was dead it reports a respawn and clears the flag; otherwise it reports LOGIN and leaves `death_states` unchanged |
| ValheimLog.DestroyReportsLogout | misc/valheim/parse-log.py:57-63 | A destroy reports LOG OUT exactly when the ZDOID maps to a name, and always leaves `players[zdoid]` as None |
| ValheimLog.DestroyIdempotent | misc/valheim/parse-log.py:61-63 | A second destroy of the same ZDOID reports nothing and changes nothing |
| ValheimLog.SpawnTakesPriority | misc/valheim/parse-log.py:44-58 | The destroy pattern is tried only when the spawn pattern does not match |
| ValheimLog.UnmatchedLineIgnored | misc/valheim/parse-log.py:57-59 | A line that matches neither pattern changes nothing and reports nothing |
| ValheimLog.Run | misc/valheim/parse-log.py:42-63 | Each log line prints at most one report, and no `players` entry is ever removed |
| ValheimLog.RunTracksPlayers | misc/valheim/parse-log.py:56-63 | After any log, `players[z]` is what the last line writing that entry put there: the spawned name, None after a destroy, or absent if nothing wrote it |
| ValheimLog.RunTracksDeaths | misc/valheim/parse-log.py:49-53 | After any log, a player is marked dead exactly when their last spawn line carried ZDOID "0" |
| ValheimLog.LogoutIffLastSpawned | misc/valheim/parse-log.py:61-62 | A destroy reports LOG OUT for `n` exactly when the last earlier line writing that ZDOID was a spawn of `n` |
| ValheimLog.RespawnIffLastDied | misc/valheim/parse-log.py:51-55 | A non-zero spawn reports a respawn exactly when the player's last earlier spawn was a death, and LOGIN otherwise |
| ValheimLog.LogState.constructor | misc/valheim/parse-log.py:20-23 | Both dictionaries start empty |
| ValheimLog.LogState.Handle | misc/valheim/parse-log.py:43-63 | One loop iteration updates both dictionaries and returns the report as `Step` does |
| ValheimLog.LogState.HandleAll | misc/valheim/parse-log.py:42-63 | The loop over a stretch of the log leaves the dictionaries and the printed reports as `Run` does |
| BashHistory.Deduplicate | python/clean-bash-history.py:7-21 | `existing` has no duplicates, holds exactly the lines of the history, and lists them in order of first occurrence. `unique == len(existing)` and `unique + dupe` is the number of lines. The output is the concatenation of `existing` |
| Decorators.Retry | python/commons/decorators.py:48-58 | The first successful call decides the result and nothing is called after it. An unlisted exception is re-raised at once, and a listed one on the `times`-th failure. With `times >= 1` there are at most `times` calls, and with `times <= 0` listed failures are retried forever. Each retried failure is followed by one handler call and one sleep of `interval`. A negative `interval` makes that first sleep raise `ValueError`, so the function is called once |
| Decorators.DryRunWrapper | python/commons/decorators.py:19-29 | The function is called, and its result returned, exactly when the flag (or the probe's answer) is false. Otherwise nothing is returned and the handler gets the `DRY_RUN:` line |
| Decorators.ItemsNonEmpty | python/commons/decorators.py:26 | Every `k=v` item is non-empty |
| Decorators.JoinEmptyIff | python/commons/decorators.py:26 | Joining non-empty items is empty only for no items |
| Decorators.ArgString | python/commons/decorators.py:25-26 | `argstr` is empty exactly when every bound argument is `self` |
| Decorators.ItemsEmptyIff | python/commons/decorators.py:26 | No item is produced exactly when every argument is `self` |
| Decorators.SelfIsSkipped | python/commons/decorators.py:26 | A `self` argument is left out of `argstr` wherever it stands |
| GitLabJson.Lift | python/gitlab-mr-checker.py:46-55 | A decoded list is returned as it is and any other value becomes a one-element list; a decoding error is re-raised. The same code is at python/gitlab-jenkins-webhook.py:43-52 |
| GitLabJson.LiftIdempotent | python/gitlab-mr-checker.py:46-55 | Lifting a lifted list again changes nothing |
| GitLabJson.LiftEmptyIff | python/gitlab-mr-checker.py:46-55 | Only an empty JSON list lifts to no items |
| JenkinsWebhook.StripHost | python/gitlab-jenkins-webhook.py:69 | `re.sub('^[^:]+:', '', uri)` removes everything up to and including the first colon, exactly when there is one and it is not the first character |
| JenkinsWebhook.StripGitSuffix | python/gitlab-jenkins-webhook.py:69 | `re.sub('\.git$', '', s)` removes a final ".git", or a ".git" just before a final newline, and otherwise changes nothing |
| JenkinsWebhook.ProjectOf | python/gitlab-jenkins-webhook.py:69 | The project is never longer than the remote, and a remote with neither a `host:` part nor a ".git" suffix is its own project |
| JenkinsWebhook.ProjectOfScpRemote | python/gitlab-jenkins-webhook.py:68-69 | An scp-style remote `host:path.git` gives the project `path` |
| JenkinsWebhook.ProjectOfUrlRemote | python/gitlab-jenkins-webhook.py:69 | A URL-style remote `scheme://host/path.git` gives `//host/path` (see Findings) |
| JenkinsWebhook.ProjectOfRemoteUrl | python/gitlab-jenkins-webhook.py:69 | The corrected derivation gives `path` for `scheme://host/path.git` |
| JenkinsWebhook.ProjectOfRemoteScp | python/gitlab-jenkins-webhook.py:69 | The corrected derivation agrees with the written one on scp-style remotes |
| JenkinsWebhook.EncodeSlashes | python/gitlab-jenkins-webhook.py:75 | The encoded project has no "/", is unchanged when there was none, and adds no characters other than those of "%2F" |
| JenkinsWebhook.DecodeEncode | python/gitlab-jenkins-webhook.py:75 | Decoding "%2F" gives back a project path that has no "%" |
| JenkinsWebhook.EncodeLength | python/gitlab-jenkins-webhook.py:75 | Each "/" becomes three characters and every other character stays one |
| JenkinsWebhook.FindHook | python/gitlab-jenkins-webhook.py:76-77 | The result is the first hook whose url matches, or none exactly when no hook matches |
| JenkinsWebhook.CreateOrUpdateHook | python/gitlab-jenkins-webhook.py:74-81 | If some hook's url matches, the request is a `put` to `/projects/<encoded>/hooks/<id>` of the first such hook; otherwise it is a `post` to `/projects/<encoded>/hooks`. Both carry the url |
| MrChecker.MrHeads | python/gitlab-mr-checker.py:89-93 | The last merge request's head sha is a key and maps to that merge request's own iid, since nothing written after it overwrites it. The full meaning of the table is stated by `MrHeadsMeaning` |
| MrChecker.MrHeadsMeaning | python/gitlab-mr-checker.py:89-93 | A sha is a key of `mr_heads` exactly when some merge request has it as head sha, or as merge commit sha while merged. It maps to the iid of the last such merge request |
| MrChecker.CollectMrHeads | python/gitlab-mr-checker.py:84-93 | The loop builds the table `MrHeads` describes |
| MrChecker.FirstParentIn | python/gitlab-mr-checker.py:100-103 | The result is the position of the first parent that is in the table, or none exactly when no parent is in it |
| MrChecker.CheckMrHeads | python/gitlab-mr-checker.py:96-105 | The commit's own entry comes first. Otherwise, for a merge commit, the entry of its first parent found is used. A commit with at most one parent and no entry gives None |
| MrChecker.RegisteredCommitIsFound | python/gitlab-mr-checker.py:89-98 | A commit registered by a merge request is found, with the iid of the last merge request registering it |
| MrChecker.UnregisteredCommit | python/gitlab-mr-checker.py:96-105 | A commit that no merge request registers is found only through a parent of a merge commit |
| MrChecker.Classify | python/gitlab-mr-checker.py:110-119 | A found iid gives an info report. Otherwise a "success" status gives an error report and any other status a warning |
| MrChecker.ReportPipelines | python/gitlab-mr-checker.py:108-122 | Each pipeline is reported in order with its classification and web url. Processing stops right after the first pipeline committed before the cutoff, and that pipeline is still reported |
| VaultCopy.Walk | python/copy-vault-secrets.py:10-26 | Every yielded path has the start path as a prefix, and its secret is what is stored under `kv_base + 'data/' + path`. The start path itself comes first exactly when it holds a secret |
| VaultCopy.WalkChildren | python/copy-vault-secrets.py:21-23 | The children's walks yield only strictly longer paths under the parent, each with its stored secret |
| VaultCopy.OwnSecretFirst | python/copy-vault-secrets.py:14-23 | A path's own secret is yielded before anything below it (pre-order) |
| VaultCopy.NoSecretStillDescends | python/copy-vault-secrets.py:14-23 | A path without data yields nothing itself, but its children are still walked |
| VaultCopy.UnlistedPathIsLeaf | python/copy-vault-secrets.py:17-26 | A missing or forbidden listing ends the walk at that path, after at most its own secret |
| VaultCopy.ForbiddenChildSkipped | python/copy-vault-secrets.py:22-26 | A child whose read is forbidden contributes nothing, and its later siblings are still walked |
| VaultCopy.Rebase | python/copy-vault-secrets.py:29 | The leading old path is replaced by the new one, and the rest of the path is kept |
| VaultCopy.RebaseRoundTrip | python/copy-vault-secrets.py:29 | Rebasing back from the new path to the old one restores the path |
| VaultCopy.CopySecrets | python/copy-vault-secrets.py:28-31 | There is exactly one write per yielded secret, in walk order, to `kv_base + 'data/' + new_path + suffix`. What is written there is the secret stored at `old_path + suffix` |

## Left out

- The threaded `mutable_multimap` / `multimap` engine and `ExceptableThread` of python/commons/collection_utils.py are not part of this model. They coordinate concurrent workers, not sequential logic.
- HTTP requests, `get_all` pagination and error printing are not modelled. The responses are inputs: decoded JSON, merge-request and pipeline records, hook lists already gathered from all pages.
- The git checkout (`clone_or_update`), `repo.commit`, the date cutoff computation and the log formatting in python/gitlab-mr-checker.py are left out. Commits are records with sha and parents; commit times are whole seconds.
- Log tailing, the queue, the thread and `convert_timezone` in misc/valheim/parse-log.py are left out. Lines arrive already matched against the two regular expressions, and timestamps are kept raw.
- Reading and writing the history file and the progress prints in python/clean-bash-history.py are left out. The output is modelled as text, not as encoded bytes.
- `time.sleep` and the `retry` handler call are recorded as effects, not performed. The `ValueError` that `time.sleep` raises for a negative interval is modelled as the outcome `NegativeSleep`. An exception raised by the handler itself is not modelled.
- `inspect.signature(...).bind` and `str(v)` in `dryrun_stub` are abstracted: the bound arguments are given as (name, text) pairs in binding order.
- Decorators.Retry: the wrapped function's outcomes are a finite input sequence. When they run out while the wrapper would call again, the result is `StillRetrying` rather than an unbounded loop.
- CollectionUtils.AutoDict.Set: nested levels are values, so the level returned by `set`, or by `get` and `__getitem__`, is a snapshot. Later updates through that returned object are not reflected (aliasing is not modelled).
- CollectionUtils.AutoDict.Get: a stored value that is not an `AutoDict` is never indexed further. A plain dict or list stored as a value, which Python could index, is treated like any other leaf and raises `TypeError`.
- MrChecker.CollectMrHeads: a merged merge request whose merge commit sha is null adds the key `None` in Python. No commit sha equals it, so the model drops that entry.
- VaultCopy.Walk: requires every listed child key to be non-empty (`WellFormed`). An empty key would make the script visit the same path again until the interpreter's recursion limit.
- VaultCopy.Rebase: `re.sub('^' + old_path, new_path, subpath)` is modelled as a plain prefix replacement. Regular-expression characters in `old_path` and backslash escapes in `new_path` are not modelled.
- VaultCopy.CopySecrets: the walk reads the vault as it was before the copy. When the new path lies inside the old one, secrets written during the copy could be read again by the live script; the model does not capture this. The "forbidden" and progress prints, and the `KeyError` a read response without `data.data` would raise, are left out.
- The argument handling at the end of python/copy-vault-secrets.py is not part of this model.
- The extra `**params` passed to the hook request are not modelled; only the url is carried.

## Findings

| source | as written | input that shows it | evidently intended | confidence | as-written member | corrected member |
|---|---|---|---|---|---|---|
| python/gitlab-jenkins-webhook.py:69 | `re.sub('^[^:]+:', '', git_uri)` strips only up to the first colon, which suits scp-style remotes | remote `https://gitlab.example.com/group/proj.git` gives the project `//gitlab.example.com/group/proj` | for a `scheme://host/path.git` remote, the project is `path` (here `group/proj`) | medium, not executed | JenkinsWebhook.ProjectOfUrlRemote | JenkinsWebhook.ProjectOfRemoteUrl |
