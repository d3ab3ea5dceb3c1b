# Asana and GitHub automation helpers, and the noise linter, in Dafny

This project models three pieces of the NOVEYA automation scripts that hold
decision logic once the network is set aside:

- **The REST helpers** (`asana_github_functions.py`), in module `AsanaGithub`:
  - `create_asana_task` posts one task. It adds `tags` to the body only when
    a non-empty list is given.
  - `commit_file_github` looks a file up with a GET, then writes it with a
    PUT. The PUT body always holds the message, the branch and the Base64
    of the content. It holds the looked-up `sha` only when the lookup
    answered 200 with a non-empty `sha`.
  - Base64 is modelled in module `Base64` as section 4 of RFC 4648. Its
    encoder is proved against a strict decoder by a round-trip lemma.
  - `raise_for_status` is modelled in module `Http`: any 4xx or 5xx status
    raises.
- **The noise linter** (`linter.py`), in module `Linter`:
  - The four noise patterns are hand-written matchers, each proved equal to
    a plain description of its language.
  - `finditer` is the left-to-right, non-overlapping scan `FindAll`.
  - `lint_file` is a method with the source's nested loops. It is proved to
    produce the findings of every rule in turn, each with its 1-based line
    number, its message and its matched text.
  - Its status is 1 exactly when some part of the text is in one of the
    four languages.
  - The entry point checks the argument count and whether the path is a
    file.
- **The task batch script** (`asana_create_tasks.py`), in module
  `AsanaCreateTasks`:
  - `build_tasks` makes eight appends, tagged `[01]` to `[08]`, and every
    description opens with `#NebiUla_Init`.
  - `create_tasks` sends one POST per task, in order. It never stops on a
    reply.
  - The entry point refuses to run while a placeholder constant is left
    unedited.

Interfaces to the outside world:

- Every network call is replaced by a reply value the caller passes in, or
  by a server function `(k, request) -> reply`.
- Each operation returns the requests it sends, in order.
- The file system of the linter's entry point is a map from the paths of
  regular files to their text as `Path.read_text` returns it. That text has
  been through universal-newline translation: each `\r\n` and each lone `\r`
  has become `\n`. Line numbers and snippets are computed on it.
- Python's `\s` (on `str`) is the set of characters `str.isspace()` accepts:
  - U+0009–U+000D and U+001C–U+0020;
  - U+0085 and U+00A0;
  - U+1680 and U+2000–U+200A;
  - U+2028, U+2029, U+202F, U+205F and U+3000.

Two behaviours of the code worth stating:

- A failed lookup in `commit_file_github` is not an error. Every non-200
  status, 404 or otherwise, leads to a write without `sha`.
- `create_tasks` does not check replies at all. It posts every task
  whatever the replies are.

Definitions the contracts rest on, with the source they model:

- `Linter.NoiseRules` is the pattern table, with its four messages, in
  order (linter.py:20-25).
- `Linter.IsSpace` is the `\s` of linter.py:21 and linter.py:23.
- `Linter.FullMatch` gives the language of each pattern (linter.py:21-24).
- `Linter.NewlinesBefore` and `Linter.LineOf` are
  `content.count("\n", 0, start) + 1` (linter.py:32).
- `Linter.IssueOf` is the `(line_no, message, group(0))` tuple
  (linter.py:33).
- `Http.RaisesForStatus` is `raise_for_status`
  (asana_github_functions.py:60 and asana_github_functions.py:107).
- `AsanaGithub.AsanaHeaders` gives the Asana headers
  (asana_github_functions.py:43-46).
- `AsanaGithub.ContentsUrl` and `AsanaGithub.GithubHeaders` give the
  contents URL and the GitHub headers (asana_github_functions.py:87-91).
- `AsanaCreateTasks.NameOf`, `AsanaCreateTasks.NotesOf` and
  `AsanaCreateTasks.TaskOf` are the task dictionaries
  (asana_create_tasks.py:36-137).

## Model

| member | source | states |
|---|---|---|
| Base64.CharOf | asana_github_functions.py:98 | every sextet maps to a character of the RFC 4648 alphabet |
| Base64.ValueOf | asana_github_functions.py:98 | the alphabet lookup is a left inverse of the table: `CharOf(ValueOf(c)) == c` |
| Base64.ValueOfCharOf | asana_github_functions.py:98 | the table is injective: `ValueOf(CharOf(x)) == x` |
| Base64.Encode | asana_github_functions.py:98 | `b64encode` output has length `4*ceil(n/3)`, uses only the alphabet and `=`, and `=` only in the last two places |
| Base64.DecodeEncodeThree | asana_github_functions.py:98 | a quantum of three bytes decodes back to those bytes |
| Base64.DecodeEncodeTwo | asana_github_functions.py:98 | a final quantum of two bytes with one `=` decodes back to them |
| Base64.DecodeEncodeOne | asana_github_functions.py:98 | a final quantum of one byte with `==` decodes back to it |
| Base64.DecodeAppend | asana_github_functions.py:98 | a full quantum in front of decodable text decodes to its bytes in front |
| Base64.DecodeEncodeStep | asana_github_functions.py:98 | the round trip survives a leading 3-byte quantum |
| Base64.DecodeEncode | asana_github_functions.py:98 | decoding the encoded content gives back exactly the original bytes |
| AsanaGithub.CreateAsanaTask | asana_github_functions.py:22-61 | one POST to the tasks URL with bearer and JSON headers; body has name, notes, workspace and `projects == [project]`; `tags` present iff a non-empty list was given, and then equal to it; the call fails iff the reply status is 4xx/5xx, otherwise returns the reply body |
| AsanaGithub.CommitFileGithub | asana_github_functions.py:64-108 | exactly one GET with `ref == branch` and then one PUT, both to `.../repos/{owner}/{repo}/contents/{path}` with the same token headers; PUT body has message, branch and the Base64 of the content, which decodes back to it; `sha` present iff the GET answered 200 with a non-empty `sha`, then equal to it; any non-200 lookup writes without `sha`; the PUT's 4xx/5xx status raises |
| Linter.SkipSpace | linter.py:21-23 | the greedy whitespace run: everything skipped is whitespace and the first character after it is not |
| Linter.SkipSpaceStopsAt | linter.py:21-23 | a whitespace run followed by a non-space ends exactly where the greedy run ends |
| Linter.MatchAt | linter.py:20-25 | a match at `i` is non-empty and ends within the text |
| Linter.MatchPrintCall | linter.py:21 | a `print\s*\(` match is non-empty and ends within the text |
| Linter.MatchImportPdb | linter.py:23 | an `import\s+pdb` match is non-empty and ends within the text |
| Linter.PrintCallIff | linter.py:21 | the `print\s*\(` matcher ends at `e` iff `s[i..e]` is `print`, whitespace, `(` |
| Linter.ImportPdbIff | linter.py:23 | the `import\s+pdb` matcher ends at `e` iff `s[i..e]` is `import`, at least one whitespace, `pdb` |
| Linter.MatchAtIff | linter.py:20-25 | each of the four matchers ends at `e` iff `s[i..e]` is in its pattern's language |
| Linter.FindAll | linter.py:31 | `finditer`: matches of one rule, within the text, left to right and non-overlapping |
| Linter.FindAllSound | linter.py:31 | every reported span is a match of the pattern at its start |
| Linter.FindAllEmptyIff | linter.py:31 | the scan finds nothing iff no position holds a match |
| Linter.FindAllCovers | linter.py:31 | no match is skipped: every position where the pattern matches lies inside a reported match |
| Linter.FirstCharOnce | linter.py:22 | a word whose first character does not recur cannot overlap itself |
| Linter.NoOverlapAt | linter.py:22 | two occurrences of a self-non-overlapping word cannot overlap |
| Linter.CountAcrossOccurrence | linter.py:22 | no occurrence starts strictly inside another |
| Linter.LiteralMatchCount | linter.py:22-24 | for a literal that cannot overlap itself, the number of matches equals the number of its occurrences |
| Linter.TodoCount | linter.py:22 | the number of TODO findings is the number of occurrences of `TODO` |
| Linter.TimeSleepCount | linter.py:24 | the number of `time.sleep(` findings is the number of its occurrences |
| Linter.SpansUpTo | linter.py:30-31 | the matches of the first `n` rules are valid spans of rules below `n` |
| Linter.Issues | linter.py:33 | one finding per match |
| Linter.IssuesAt | linter.py:33 | the `j`-th finding is the finding of the `j`-th match |
| Linter.IssuesAppend | linter.py:30-33 | findings of consecutive match lists concatenate |
| Linter.FindAllNonEmptyIff | linter.py:31 | one rule finds something iff some piece of the text is in its language |
| Linter.SpansUpToNonEmptyIff | linter.py:30-34 | the first `n` rules find something iff one of their languages occurs |
| Linter.IssuesUpToStep | linter.py:30-33 | the outer loop appends one rule's findings after those of the rules before it |
| Linter.IssuesNonEmptyIff | linter.py:34-41 | there is a finding iff the text is noisy |
| Linter.ScanSkip | linter.py:31 | a position without a match leaves the pending findings unchanged |
| Linter.ScanMatch | linter.py:31-33 | a match at `pos` yields the finding with its line, message and text, and the scan resumes at its end |
| Linter.ScanRule | linter.py:31-33 | the inner loop appends exactly the findings of one rule's `finditer` |
| Linter.LintFile | linter.py:27-41 | the findings are those of every rule in list order; status is 1 if there are findings and 0 otherwise, and 1 iff the text is noisy |
| Linter.NewlinesBeforeCount | linter.py:32 | the line count equals the number of `\n` in the prefix before the match |
| Linter.NewlinesBeforeMono | linter.py:32 | the newline count does not decrease along the text |
| Linter.SpansUpToSound | linter.py:30-31 | every collected span is a match of its own rule's pattern |
| Linter.SpansUpToOrdered | linter.py:30-33 | collected spans are in report order |
| Linter.AllSpansOrdered | linter.py:30-33 | findings are ordered by rule position, then by strictly increasing start without overlap |
| Linter.ReportedIssue | linter.py:31-33 | each finding's line is 1 + the newlines before the match, between 1 and 1 + all newlines; its message is its rule's; its snippet is exactly the matched text and lies in the rule's language |
| Linter.QuietRule | linter.py:20-31 | in text without the four key words, no rule finds anything |
| Linter.QuietContent | linter.py:20-41 | text without `print`, `TODO`, `import` or `time.sleep(` has no findings and is not noisy |
| Linter.LinterMain | linter.py:43-52 | exit 2 when the argument count is not one or the path is not a file; otherwise the findings of `lint_file`, and exit 1 iff the text is noisy and 0 iff it is not |
| AsanaCreateTasks.Number | asana_create_tasks.py:35-137 | sector `k` sits at place `k` (1-based) of the creation order |
| AsanaCreateTasks.Digit | asana_create_tasks.py:37 | the tag digit is a decimal digit |
| AsanaCreateTasks.NameStartsWithTag | asana_create_tasks.py:37 | a task name opens with `[0k]`, then its sector label |
| AsanaCreateTasks.NotesStartWithTag | asana_create_tasks.py:39 | every description opens with `#NebiUla_Init` and a newline |
| AsanaCreateTasks.TaskShape | asana_create_tasks.py:36-46 | one task's name opens with its `[0k]` tag and its notes with the meta-tag line |
| AsanaCreateTasks.ListShape | asana_create_tasks.py:31-139 | a list of one task per sector in order is tagged `[01]`..`[08]` with increasing tags and meta-tagged notes |
| AsanaCreateTasks.BuildTasks | asana_create_tasks.py:31-139 | exactly eight tasks, one per sector in order, task `k` tagged `[0k]`, tags increasing, every description opening with `#NebiUla_Init` |
| AsanaCreateTasks.PostOf | asana_create_tasks.py:150-156 | the per-task body has no workspace and no tags |
| AsanaCreateTasks.CreateTasks | asana_create_tasks.py:142-163 | one POST per task in list order, all to the tasks URL with the same bearer headers, body `name`, `notes`, `projects == [project]` and nothing else; every request is sent whatever the replies |
| AsanaCreateTasks.RunScript | asana_create_tasks.py:166-172 | refuses, with its message, exit status 1 and nothing sent, iff a constant still holds its placeholder; otherwise builds the eight tasks and posts them in order |

## Left out

- HTTP transport: connection errors, timeouts and redirects are not modelled. Every request gets the reply the caller supplies.
- JSON: encoding the bodies and parsing the replies is left out.
  - A lookup reply is reduced to its status and its `sha` key.
  - A non-JSON reply to the lookup, or a `sha` that is not a string, is not modelled.
  - A 200 lookup whose JSON body is not an object is not modelled. GitHub sends an array for a directory path. `get_resp.json().get("sha")` then raises `AttributeError` before any PUT is sent (asana_github_functions.py:95), whereas `CommitFileGithub` always sends the PUT.
  - A helper's result is the reply body as text.
- The UTF-8 encoding of the committed text: the content is taken as bytes.
- The strict Base64 decoder does not check that the unused padding bits are zero. The round trip needs only the encoder's side.
- Printing is left out: the linter's report lines and the batch script's per-task status lines. The findings the linter prints are returned instead.
- `Path.read_text` failures and decoding errors are left out. The linter's entry point reads the text from a map of regular files.
- General regular-expression semantics: only the four fixed patterns have matchers.
- Python's `\s` on `str` is modelled as the characters `str.isspace()` accepts under the current Unicode database, listed above. A later Unicode version that adds whitespace characters is not followed.
- The Russian titles and cycle texts of the eight tasks: they are a parameter `Sector -> Prose`. The sector labels, the `[0k]` tags, the `#NebiUla_Init` line and the English step headings are modelled.
- `ASANA_PAT` and `PROJECT_GID` are parameters of the entry point rather than compiled-in constants, so that the placeholder guard can be stated.
- The `__main__` block of `asana_github_functions.py` only prints whether two environment variables are set. It is not modelled.
- `dna_init_script.py` is environment-variable glue around one call to `commit_file_github`. It is not part of this model.
- `orchestrator.py` only calls modules that are not available, and `setup.py` is packaging metadata. Neither is part of this model.
