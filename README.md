# Prometheus setup helper: the string handling, verified

The end-to-end tests of this repository set up Prometheus next to Amazon
Managed Prometheus (AMP). They check that both report the same count for the
`experiment_server_create_requests` metric. Almost all of
`tests/e2e/utils/prometheus/setup_prometheus_server.py` is orchestration:
`kubectl`, `eksctl`, `kustomize`, `curl`, `awscurl`, boto3, sleeps and a
background port-forward. This project models the deterministic string logic
inside that file and proves properties of it:

- **Placeholder rewrite** (`make_new_file_with_replacement`). Every line of a
  template file goes through every entry of a placeholder dictionary, in
  insertion order, with Python's `str.replace`. The result goes to a sibling
  file whose last path segment gets the prefix `updated-`. This is
  `FileRewrite.MakeNewFileWithReplacement`, a method with the source's two
  nested loops.
- **Prometheus pod selection** (the inner `get_prometheus_pod_name`). The
  header row of `kubectl get pods` is dropped. The first row whose pod name
  splits on `-` into `prometheus`, `deployment`, ... is selected, and its
  second column must be `1/1`. This is `PodScan.GetPrometheusPodName`, a method
  with the source's loop and `break`.
- **Count extraction** (`text.split(",")[-1].split('"')[1]`, used for both
  responses). This is `CountCheck.ExtractCount`.
- **Count reconciliation** (`check_AMP_connects_to_prometheus`). The AMP
  count must equal the local count, then `str(expected_value)` must equal the
  local count, and the AMP count is returned. This is
  `CountCheck.CheckAmpConnectsToPrometheus`.

Python's own behaviour is written out in module `PyStr`: `str.split(sep)`,
`str.join`, `str.split()` (with Python's full list of whitespace code points),
`str.replace` (including the empty-key case) and `str(int)`. Module `Python`
holds the exceptions the code raises by itself. `IndexError` and
`AssertionError` become the outcome `Raised(...)`, tagged with the `assert`
that failed. `None` becomes `Option.None`. A Python dict is a sequence of
(key, value) pairs in insertion order, because that is the order
`for key in dict` visits.

Three facts about the code shape the model:

- `str.replace` rewrites every occurrence of a placeholder, anywhere in any
  line. Lines without a placeholder pass through unchanged only because
  there is nothing to replace in them.
- The metric name in both queries is fixed. No label constraint is parsed
  and no series is selected.
- The count is the text between the first and the second `"` after the
  last comma of the response, or to its end when only one `"` follows
  that comma.

Two findings from the proofs are worth knowing:

1. "If no replacement value contains a placeholder, no placeholder is left"
   is false. `str.replace` can glue surrounding text into a new occurrence,
   within one key (`PyStr.ReplaceCanLeaveKey`) and across keys
   (`FileRewrite.PlaceholderCanReappear`). The statement holds when every
   placeholder and every value is non-empty, and no value holds the first
   or the last character of a placeholder or occurs inside one
   (`FileRewrite.NoPlaceholderRemains`). The dictionary of
   `update_config_map_AMP_workspace` meets this whenever the workspace id
   and the region hold no `<` or `>` and contain a digit, as `ws-…` ids and
   AWS region names do. In that case neither placeholder survives the
   rewrite (`FileRewrite.ConfigMapLeavesNoPlaceholder`).
2. `kubectl` ends its listing with a newline, so the last row is empty. When
   no earlier row decides, `pod.split()[0]` raises `IndexError` on that row.
   So a listing that ends with a newline never yields `None`
   (`PodScan.TrailingNewlineNeverNone`).

Two further notes on pod selection:

- The `pod_name[0] == 'p'` test is implied by the segment test
  (`PodScan.ClassifySelectIff`).
- A pod name without `-` raises `IndexError` only when it is exactly
  `prometheus` (`PodScan.NameWithoutHyphen`).

Files: `Python.dfy`, `PyStr.dfy`, `FileRewrite.dfy`, `PodScan.dfy`,
`CountCheck.dfy`.

## Model

| member | source | states |
|---|---|---|
| `PyStr.Split` | tests/e2e/utils/prometheus/setup_prometheus_server.py:26 | `str.split(sep)` always returns at least one piece, and no piece contains the separator |
| `PyStr.Join` | tests/e2e/utils/prometheus/setup_prometheus_server.py:28 | the length of `sep.join(parts)` is the pieces' total plus one per gap, and it starts with the first piece |
| `PyStr.JoinSplit` | tests/e2e/utils/prometheus/setup_prometheus_server.py:26-28 | `sep.join(s.split(sep)) == s` for every string |
| `PyStr.SplitJoin` | tests/e2e/utils/prometheus/setup_prometheus_server.py:26-28 | splitting the join of separator-free pieces gives back exactly those pieces |
| `PyStr.SplitSingleIff` | tests/e2e/utils/prometheus/setup_prometheus_server.py:148 | a split has exactly one piece iff the separator does not occur, so `[1]` is defined iff it occurs |
| `PyStr.Fields` | tests/e2e/utils/prometheus/setup_prometheus_server.py:107 | every field of `str.split()` is non-empty and holds no whitespace |
| `PyStr.FieldsEmptyIff` | tests/e2e/utils/prometheus/setup_prometheus_server.py:107 | `str.split()` is empty iff the line is empty or whitespace only |
| `PyStr.Replace` | tests/e2e/utils/prometheus/setup_prometheus_server.py:24 | `str.replace` leaves a line that does not contain the key unchanged |
| `PyStr.ReplaceSelf` | tests/e2e/utils/prometheus/setup_prometheus_server.py:24 | replacing a key by itself leaves every line unchanged |
| `PyStr.ReplaceRemovesKey` | tests/e2e/utils/prometheus/setup_prometheus_server.py:24 | after replacing a non-empty key by a non-empty value that holds neither the key's first nor its last character and does not occur inside the key, the key no longer occurs |
| `PyStr.ContainsAfterReplace` | tests/e2e/utils/prometheus/setup_prometheus_server.py:24 | if the value is non-empty, holds neither the first nor the last character of `k` and does not occur inside `k`, any `k` in the result was already in the input |
| `PyStr.ReplaceCanLeaveKey` | tests/e2e/utils/prometheus/setup_prometheus_server.py:24 | counterexample: `"aabb".replace("ab", "a") == "aab"` still holds `"ab"`, though `"a"` does not |
| `PyStr.NatToString` | tests/e2e/utils/prometheus/setup_prometheus_server.py:169 | `str(n)` for `n >= 0` is a non-empty string of decimal digits |
| `PyStr.DigitsValueOfNat` | tests/e2e/utils/prometheus/setup_prometheus_server.py:169 | reading back the decimal digits of `str(n)` gives `n` |
| `PyStr.IntToString` | tests/e2e/utils/prometheus/setup_prometheus_server.py:169 | `str(i)` is non-empty, starts with `-` iff `i < 0`, and every other character is a decimal digit |
| `PyStr.IntToStringInjective` | tests/e2e/utils/prometheus/setup_prometheus_server.py:169 | `str(a) == str(b)` implies `a == b` for integers |
| `FileRewrite.MakeNewFileWithReplacement` | tests/e2e/utils/prometheus/setup_prometheus_server.py:18-31 | the written text is each read line rewritten key by key, concatenated in order; the written path is the `updated-` path |
| `FileRewrite.Lines` | tests/e2e/utils/prometheus/setup_prometheus_server.py:20-21 | the lines a text file iterates over concatenate back to its text; every line is non-empty, has a newline only at its end, and every line but the last ends with one |
| `FileRewrite.RewriteFileAppend` | tests/e2e/utils/prometheus/setup_prometheus_server.py:21-25 | lines are rewritten independently: the rewrite of `a + b` is the rewrite of `a` followed by that of `b` |
| `FileRewrite.RewriteLine` | tests/e2e/utils/prometheus/setup_prometheus_server.py:22-24 | a line containing none of the placeholders is copied unchanged |
| `FileRewrite.RewriteFile` | tests/e2e/utils/prometheus/setup_prometheus_server.py:19-25 | if no line holds a placeholder, the new file's text is the old lines concatenated |
| `FileRewrite.EmptyDictCopiesFile` | tests/e2e/utils/prometheus/setup_prometheus_server.py:19-25 | with an empty dictionary, the new file's text equals the old file's text |
| `FileRewrite.RewriteLineInOrder` | tests/e2e/utils/prometheus/setup_prometheus_server.py:23-24 | keys apply one after another in dictionary order: rewriting with `first + later` equals rewriting with `first`, then with `later` |
| `FileRewrite.NoPlaceholderRemains` | tests/e2e/utils/prometheus/setup_prometheus_server.py:23-24 | if every placeholder and every value is non-empty, and no value holds the first or last character of any placeholder or occurs inside one, no placeholder remains in a rewritten line |
| `FileRewrite.PlaceholderCanReappear` | tests/e2e/utils/prometheus/setup_prometheus_server.py:23-24 | counterexample: values `"x"` and `""` hold neither key `"ab"` nor `"c"`, yet `"acb"` is rewritten to `"ab"` |
| `FileRewrite.ConfigMapReplacements` | tests/e2e/utils/prometheus/setup_prometheus_server.py:40-42 | the config-map dictionary has two entries, each placeholder delimited by `<` and `>` |
| `FileRewrite.UpdateConfigMapAmpWorkspace` | tests/e2e/utils/prometheus/setup_prometheus_server.py:39-43 | the written text is the config map rewritten with the workspace-id and then the region placeholder; the path is the `updated-` path |
| `FileRewrite.ConfigMapValuesForeign` | tests/e2e/utils/prometheus/setup_prometheus_server.py:40-42 | a workspace id and a region with no `<` or `>` and some digit can take part in no occurrence of either placeholder |
| `FileRewrite.ConfigMapLeavesNoPlaceholder` | tests/e2e/utils/prometheus/setup_prometheus_server.py:39-43 | for such a workspace id and region, no line rewritten by `update_config_map_AMP_workspace` still holds either placeholder |
| `FileRewrite.TypicalConfigMapValues` | tests/e2e/utils/prometheus/setup_prometheus_server.py:40-42 | the dictionary built from `ws-1a2b` and `us-west-2` meets the no-new-placeholder condition |
| `FileRewrite.UpdatedPath` | tests/e2e/utils/prometheus/setup_prometheus_server.py:26-28 | the new path has as many `/`-segments as the old one; all but the last are unchanged, and the last is `"updated-"` + the old last segment |
| `FileRewrite.UpdatedPathInsertsPrefix` | tests/e2e/utils/prometheus/setup_prometheus_server.py:26-28 | the new path is the old one with `updated-` inserted after its last `/`; it is 8 characters longer, so it never names the input file |
| `PodScan.Classify` | tests/e2e/utils/prometheus/setup_prometheus_server.py:106-125 | a selected name is the row's first column, passes the segment test, and the row's second column is `1/1`; a failing row raises only `IndexError` or the readiness assertion |
| `PodScan.Scan` | tests/e2e/utils/prometheus/setup_prometheus_server.py:105-127 | a name the loop returns passes the segment test; the loop raises only `IndexError` or the readiness assertion |
| `PodScan.PrometheusPod` | tests/e2e/utils/prometheus/setup_prometheus_server.py:100-127 | the empty-list assertion fails iff the listing has no newline (header only); a returned name passes the segment test |
| `PodScan.GetPrometheusPodName` | tests/e2e/utils/prometheus/setup_prometheus_server.py:100-127 | the loop returns exactly the specified outcome: the empty-list assertion, or the first deciding row's name or exception, or `None` |
| `PodScan.FirstPieceIsPrefix` | tests/e2e/utils/prometheus/setup_prometheus_server.py:109-111 | `pod_name.split('-')[0]` is a prefix of the pod name |
| `PodScan.NameMatchesIff` | tests/e2e/utils/prometheus/setup_prometheus_server.py:109-112 | segments 0 and 1 are `prometheus` and `deployment` iff the name starts with `prometheus-deployment` and then ends or continues with `-` |
| `PodScan.ClassifySelectIff` | tests/e2e/utils/prometheus/setup_prometheus_server.py:106-125 | a row is selected with name `n` iff its first column is `n`, `n` passes the segment test, and the second column is `1/1`; the `'p'` test is implied |
| `PodScan.ClassifyNotReadyIff` | tests/e2e/utils/prometheus/setup_prometheus_server.py:121-123 | a row raises the readiness assertion iff its name passes the segment test and its second column exists and is not `1/1` |
| `PodScan.BlankRowRaises` | tests/e2e/utils/prometheus/setup_prometheus_server.py:107 | an empty or whitespace-only row raises `IndexError` |
| `PodScan.NameWithoutHyphen` | tests/e2e/utils/prometheus/setup_prometheus_server.py:109-112 | a name without `-` is skipped, except the exact name `prometheus`, which raises `IndexError` |
| `PodScan.ScanAppend` | tests/e2e/utils/prometheus/setup_prometheus_server.py:105-127 | rows after the deciding row are never examined: the scan of `a + b` is the scan of `a` unless every row of `a` skipped |
| `PodScan.ScanNoneIff` | tests/e2e/utils/prometheus/setup_prometheus_server.py:105-127 | the scan returns `None` iff every row is skipped |
| `PodScan.ScanFoundIff` | tests/e2e/utils/prometheus/setup_prometheus_server.py:106-126 | the scan returns `n` iff some row selects `n` and every earlier row is skipped |
| `PodScan.HeaderIgnored` | tests/e2e/utils/prometheus/setup_prometheus_server.py:102 | the outcome depends only on the rows after the first line, whatever the header says |
| `PodScan.TrailingNewlineNeverNone` | tests/e2e/utils/prometheus/setup_prometheus_server.py:102-107 | a listing that ends with a newline never yields `None`: its empty last row raises `IndexError` if no earlier row decides |
| `PodScan.ReadyRowSelected` | tests/e2e/utils/prometheus/setup_prometheus_server.py:106-125 | a row `<name> 1/1` whose whitespace-free name passes the segment test selects that name |
| `PodScan.SingleReadyPodFound` | tests/e2e/utils/prometheus/setup_prometheus_server.py:100-127 | a header plus one ready pod row named `prometheus-deployment...`, trailing newline included, yields that pod's name |
| `CountCheck.LastSegment` | tests/e2e/utils/prometheus/setup_prometheus_server.py:148 | `text.split(",")[-1]` holds no comma |
| `CountCheck.ExtractCount` | tests/e2e/utils/prometheus/setup_prometheus_server.py:148 | extraction raises iff the text after the last comma holds no `"`, and then only `IndexError`; an extracted count contains no `,` and no `"` |
| `CountCheck.ExtractCountOf` | tests/e2e/utils/prometheus/setup_prometheus_server.py:161 | a count placed after the last comma, between the first and second quote (or first quote and end), is read back exactly |
| `CountCheck.EmptyResultReadsAsCount` | tests/e2e/utils/prometheus/setup_prometheus_server.py:148 | a response ending in `"result":[]}}` (an empty result vector) yields the count `result` instead of failing |
| `CountCheck.CheckAmpConnectsToPrometheus` | tests/e2e/utils/prometheus/setup_prometheus_server.py:164-170 | the check returns the AMP count iff both responses yield the same count and it equals `str(expected)`; otherwise it raises `IndexError` or one of the two assertions |
| `CountCheck.DisagreementFailsFirst` | tests/e2e/utils/prometheus/setup_prometheus_server.py:167-169 | when the two counts differ, the agreement assertion fails, whatever the expected value |
| `CountCheck.PassDeterminesExpected` | tests/e2e/utils/prometheus/setup_prometheus_server.py:169 | two expected values that both pass on the same responses are equal |
| `CountCheck.IdenticalResponsesAgree` | tests/e2e/utils/prometheus/setup_prometheus_server.py:148-167 | both counts come from the same expression (lines 148 and 161), so identical responses never fail the agreement assertion at line 167; the check then passes iff their count is `str(expected)` |
| `CountCheck.FiveAgainstSix` | tests/e2e/utils/prometheus/setup_prometheus_server.py:164-170 | both sides `"5"` with expected 5 returns `"5"`; AMP `"6"` against local `"5"` fails the agreement assertion first |

## Left out

- `wait_for` (imported at line 13, used at lines 56, 129, 182) is defined in
  `e2e/utils/utils.py`, which is not part of this model. So the retry
  schedule, timeouts and the `None` → `ValueError("Prometheus Pod Not
  Running.")` check at lines 129-131 are not modelled. That check acts on
  what `wait_for` returns.
- Every subprocess call (`kubectl`, `eksctl`, `kustomize`, `curl`, `awscurl`,
  the `Popen` port-forward) is external process I/O. The `kubectl describe` and
  `kubectl logs` calls inside the pod loop (lines 113-120) are taken to
  succeed. Their `CalledProcessError` is not modelled.
- `check_prometheus_is_running` (lines 139-143) is left out. It runs a `curl`
  call and asserts at line 143 that its output is non-empty. That assertion
  depends only on the process output, which is outside the model.
- boto3 calls and `delete_AMP_resources` (lines 45-58, 172-197) are cloud
  API calls. Their code is not part of this model. `create_AMP_ingest_policy`,
  `delete_policy`, `get_aws_account_id` and `associate_iam_oidc_provider` are
  not part of this model either.
- `set_up_prometheus_for_AMP` (lines 60-96) is orchestration only.
- `update_AMP_service_account_id` (lines 33-37) is left out. It is called
  only from the commented-out line 66. Its single value comes from
  `get_aws_account_id`, which is not part of this model.
- File I/O (lines 20, 29-30, 89-93) is left out. The method takes the lines
  the file yields and returns the text and path it would write.
  `FileRewrite.Lines` models how a text file splits into lines. Text-mode
  newline translation (`\r\n` → `\n`) and character decoding are left out.
- `time.sleep` and `print` have no effect on results.
- The `KeyError` path at lines 154-155 is not modelled. `os.environ` raises
  it when `AWS_ACCESS_KEY_ID` or `AWS_SECRET_ACCESS_KEY` is unset, before
  any query runs. `CountCheck.CheckAmpConnectsToPrometheus` starts from the
  two responses, so it assumes both variables are set.
- `CountCheck.CheckAmpConnectsToPrometheus` takes the two response texts as
  parameters, in place of the queries that produce them. `expected_value` is
  modelled as a Python `int`, because its callers are not part of this
  model.
