# Kubernetes-Env-Update, modelled in Dafny

`update_env.py` updates the environment variables of one Kubernetes
Deployment from a flat JSON file, moves one sensitive value into a Secret
named `<service>-secrets`, and logs the change. Almost all of it is calls to
the Kubernetes client. This project models the three pieces of local data
handling inside `update_deployment`, and the order in which the script runs
them:

- **Password extraction** (`extraction.dfy`). If `INPUT_CONNECTION_CONFIG` is
  present and parses to a JSON object with a `password` field, the field is
  removed. Its base64 text goes into the secret payload under
  `INPUT_CONNECTION_CONFIG_PASSWORD`, and the variable is rewritten to the
  serialised remainder.
- **Secret create-or-update** (`secret_upsert.dfy`). This step is skipped for
  an empty payload. An existing Secret has the payload merged into its data
  key by key. On a 404 the Secret is created with exactly the payload. Any
  other API error propagates.
- **Env-list merge** (`env_merge.dfy`, `env_merge_facts.dfy`). This works on the
  first container's ordered env list. Each input pair overwrites the first
  entry with its name where it stands, or is appended. Then one
  secret-reference entry per payload key is appended, unconditionally.
- **The run** (`deployment_update.dfy`) chains the three steps and stops at
  the first exception, as the script does.

Python dicts keep insertion order, and the script depends on that. So
dictionaries are modelled as sequences of (key, value) pairs
(`dicts.dfy`). Their keys are distinct wherever the source has a real dict.
The env-list merge is an imperative method on a `Container` object whose
`env` field the loops update. It is proved equal to the function
`UpdatedEnv`, and the properties are lemmas about that function.

JSON parsing, `json.dumps` and `base64.b64encode` (section 4 of RFC 4648)
are parameters of the model: `parse` (None where `json.loads` raises a
decode error), `dump` and `encode`. The Kubernetes API's answers to the
three secret calls are an input (`SecretApi`). The Deployment object is the
result of the read. The state the object is left in is what the patch sends.

For plain variables, the code checks for an existing entry first
(lines 85-91). A same-named entry is replaced where it stands, not
duplicated. The secret-reference appends (lines 96-106) skip that check,
so a name can appear twice. `SecretRefsDistinctIff` states exactly when
duplicates arise, and `RerunAppendsRefsAgain` shows that every re-run with
a password appends one more identical reference.

The secret read and the secret replace sit in one `try` block (lines
58-75). So a 404 from the replace call also leads to the create path, not
only a 404 from the read. The model follows the code here as well.

## Model

| member | source | states |
|---|---|---|
| `Dicts.Put` | update_env.py:51 | Assigning an existing key keeps the key order and the other values; the key then maps to the new value. |
| `Dicts.Remove` | update_env.py:49 | Popping a key leaves no pair under it; the remaining keys are the original keys in their order with that key left out, each with its value. |
| `EnvMerge.FirstMatch` | update_env.py:86-91 | The inner scan stops at the first entry with the name, and finds none exactly when no entry has it. |
| `EnvMerge.FirstMatchAt` | update_env.py:87-91 | An entry with the name and none before it is where the `break` happens. |
| `EnvMerge.MergeEnv` | update_env.py:78-106 | The nested loops leave the container's env list equal to `UpdatedEnv` of its old value: None is treated as empty, the input pairs are upserted, then the secret references are appended. |
| `EnvMergeFacts.Absent` | update_env.py:92-93 | Every pair it yields is an input pair whose name the original list lacks, and every such input pair is yielded. Its recursive definition keeps input order, which `UpsertAllShape` relies on. |
| `EnvMergeFacts.UpsertAllShape` | update_env.py:83-93 | The plain merge keeps every original entry at its index. It overwrites only the first entry of each input name, and appends the absent input pairs in input order. |
| `EnvMergeFacts.UpsertAllCovers` | update_env.py:83-93 | After the plain merge, every input name has an entry, and its first entry holds the input's literal value. |
| `EnvMergeFacts.UpsertAllNoOp` | update_env.py:83-93 | A list whose first entries already hold the input values is not changed by the plain merge. |
| `EnvMergeFacts.UpsertAllIdempotent` | update_env.py:83-93 | Re-running the plain merge with the same input leaves the list unchanged. |
| `EnvMergeFacts.HoldsInputsAppend` | update_env.py:96-106 | Entries appended after the plain merge do not disturb the first entries that hold the input values. |
| `EnvMergeFacts.UpsertAllLength` | update_env.py:92-93 | The plain merge grows the list by exactly the number of input names absent from the original list. |
| `EnvMergeFacts.AbsentDistinct` | update_env.py:92-93 | The appended input pairs have distinct names. |
| `EnvMergeFacts.UpsertAllDistinct` | update_env.py:83-93 | If the original names are distinct, the names after the plain merge are distinct. |
| `EnvMergeFacts.MergeIntoEmpty` | update_env.py:79-93 | A container without an env list gets the input pairs in input order. |
| `EnvMergeFacts.SecretRefsDistinctIff` | update_env.py:96-106 | After the unconditional appends, the names are distinct if and only if no secret key already names a plain entry. |
| `EnvMergeFacts.RerunAppendsRefsAgain` | update_env.py:83-106 | Running the whole merge again with the same input keeps every entry and appends the secret references once more; with a payload, a name then appears twice. |
| `EnvMergeFacts.ReplaceInPlaceExample` | update_env.py:86-91 | Merging {A: 1} into A=0, B=2 gives A=1, B=2. |
| `SensitiveExtraction.Extract` | update_env.py:44-53 | An absent or unparseable config, or one without a password, leaves the mapping unchanged and the payload empty. A string password gives exactly `{INPUT_CONNECTION_CONFIG_PASSWORD: encode(password)}`, and the config value becomes `dump` of the config without `password`. A non-string password aborts the run. No other variable is added, removed, moved or changed. |
| `SecretUpsert.NewSecret` | update_env.py:65-71 | The created Secret is named `service + "-secrets"`, has type Opaque, and holds exactly the payload. |
| `SecretUpsert.UpsertSecret` | update_env.py:56-75 | An empty payload skips the calls. An existing secret keeps its other keys and takes the payload's values. A 404 from the read or the replace leads to creation. A non-404 error from the read, or else from the replace, escapes with its own status, and create is not called. On the create path, a failing create escapes with its status. |
| `SecretUpsert.UpsertAgainSameData` | update_env.py:59-61 | Merging the same payload into already-merged data changes nothing. |
| `DeploymentUpdate.UpdateDeployment` | update_env.py:38-106 | Extraction, secret write and env merge run in this order. A failure at any step stops the run and leaves the container untouched. On success, the first container's env list is `UpdatedEnv` of the extracted input and payload. |
| `DeploymentUpdate.PatchedEnvHoldsInputs` | update_env.py:45-106 | After a successful run, every input variable has its literal value at its first entry. When a password was moved out, the last entry reads `INPUT_CONNECTION_CONFIG_PASSWORD` from `<service>-secrets`. |

## Left out

- Loading the kube config (local, then in-cluster) and the client objects (lines 24-31): credential handling in the client library.
- Reading the input file with `json.load` (lines 34-35): file I/O and a library call. The model starts from the loaded mapping, and the missing-file error is not modelled.
- Reading the Deployment (line 38) and sending the patch (line 110): the read's result is an input, and the patch's response is not modelled. A failing read would stop the run before anything else.
- Appending the line to `update_log.txt` (lines 114-117), with its hard-coded timestamp: file I/O.
- The printed messages and the catch-all handlers (lines 120-125). The model returns the outcome instead of printing it.
- The command line (lines 128-139) and the unused `cluster` argument.
- JSON values of INPUT_CONNECTION_CONFIG that are not objects (lists, numbers, strings). In Python, `"password" in` behaves differently for these, or raises; the script does not handle them deliberately. `parse` only returns objects or None.
- `secret.data` being None on an existing Secret: the script's `update` would raise AttributeError. The model treats the data read as a map.
- A password string that cannot be encoded as UTF-8 (a lone surrogate): `encode` is a total parameter here, so the model does not capture the UnicodeEncodeError.
- Concurrent runs against the same Deployment: the read-modify-write race is outside a sequential model.
