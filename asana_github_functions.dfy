/** The two REST helpers: creating an Asana task (one POST) and creating or
    updating a file in a GitHub repository (one GET that looks up the file's
    revision, then one PUT that writes it). The network is replaced by the
    responses the caller supplies, and each helper returns the requests it
    would have sent, in order. */
module AsanaGithub {
  import opened Wrappers
  import opened Http
  import Base64

  // ---------------------------------------------------------------------
  // create_asana_task
  // ---------------------------------------------------------------------

  const AsanaTasksUrl: string := "https://app.asana.com/api/1.0/tasks"

  /** The `data` object of an Asana task-creation body. A key that may be
      missing from the dictionary is an `Option`. */
  datatype TaskData = TaskData(
    name: string,
    notes: string,
    workspace: Option<string>,
    projects: seq<string>,
    tags: Option<seq<string>>)

  /** A POST to the Asana tasks endpoint with its JSON body `{"data": ...}`. */
  datatype TaskPost = TaskPost(url: string, headers: seq<Header>, data: TaskData)

  /** The headers every Asana request carries: a bearer token and JSON. */
  function AsanaHeaders(pat: string): seq<Header> {
    [Header("Authorization", "Bearer " + pat), Header("Content-Type", "application/json")]
  }

  /** Python's truth value of an optional list: false for None and for []. */
  predicate IsTruthyList<T>(xs: Option<seq<T>>) {
    xs.Some? && |xs.value| > 0
  }

  /** `create_asana_task`: one POST whose body holds the name, the notes,
      the workspace and the one project, plus the tags only when a non-empty
      list was given; a 4xx or 5xx reply raises, any other reply's JSON is
      returned. */
  method CreateAsanaTask(reply: Response, pat: string, workspaceGid: string, projectGid: string,
                         name: string, notes: string, tags: Option<seq<string>> := None)
    returns (sent: TaskPost, result: Result<string, HttpError>)
    ensures sent.url == AsanaTasksUrl && sent.headers == AsanaHeaders(pat)
    ensures sent.data.name == name && sent.data.notes == notes
    ensures sent.data.workspace == Some(workspaceGid) && sent.data.projects == [projectGid]
    ensures sent.data.tags.Some? <==> tags.Some? && tags.value != []
    ensures sent.data.tags.Some? ==> sent.data.tags == tags
    ensures result.Failure? <==> RaisesForStatus(reply.status)
    ensures result.Failure? ==> result.error == HttpError(reply.status)
    ensures result.Success? ==> result.value == reply.body
  {
    var headers := AsanaHeaders(pat);
    var data := TaskData(name, notes, Some(workspaceGid), [projectGid], None);
    if IsTruthyList(tags) {
      data := data.(tags := tags);
    }
    sent := TaskPost(AsanaTasksUrl, headers, data);
    if RaisesForStatus(reply.status) {
      result := Failure(HttpError(reply.status));
    } else {
      result := Success(reply.body);
    }
  }

  // ---------------------------------------------------------------------
  // commit_file_github
  // ---------------------------------------------------------------------

  /** The reply to the lookup GET: its status, and the `sha` key of its JSON
      body (None when the key is missing or null). A 200 reply whose body is
      not a JSON object is not represented. */
  datatype LookupReply = LookupReply(status: int, sha: Option<string>)

  /** The JSON body of the write PUT; `sha` is present only for an update. */
  datatype WriteBody = WriteBody(message: string, content: string, branch: string, sha: Option<string>)

  /** The two requests the helper sends to the contents endpoint. */
  datatype ContentsRequest =
    | Lookup(url: string, headers: seq<Header>, ref: string)
    | Write(url: string, headers: seq<Header>, body: WriteBody)

  /** The contents endpoint of one file. */
  function ContentsUrl(owner: string, repo: string, path: string): string {
    "https://api.github.com/repos/" + owner + "/" + repo + "/contents/" + path
  }

  /** The headers both GitHub requests carry: the token and the media type. */
  function GithubHeaders(pat: string): seq<Header> {
    [Header("Authorization", "token " + pat), Header("Accept", "application/vnd.github+json")]
  }

  /** `commit_file_github`: look the file up on the branch, then write the
      Base64 of the content, passing the looked-up revision only when the
      lookup answered 200 with a non-empty `sha`. Every other lookup status
      (404, 401, 500, ...) is not an error: the write goes ahead without a
      revision. The write's 4xx or 5xx status raises. */
  method CommitFileGithub(lookup: LookupReply, reply: Response, pat: string, owner: string, repo: string,
                          path: string, content: seq<Base64.Byte>, message: string, branch: string := "main")
    returns (sent: seq<ContentsRequest>, result: Result<string, HttpError>)
    ensures |sent| == 2 && sent[0].Lookup? && sent[1].Write?
    ensures sent[0].url == sent[1].url == ContentsUrl(owner, repo, path)
    ensures sent[0].headers == sent[1].headers == GithubHeaders(pat)
    ensures sent[0].ref == branch
    ensures sent[1].body.message == message && sent[1].body.branch == branch
    ensures sent[1].body.content == Base64.Encode(content)
    ensures Base64.Decode(sent[1].body.content) == Some(content)
    ensures sent[1].body.sha.Some? <==> lookup.status == 200 && lookup.sha.Some? && lookup.sha.value != ""
    ensures sent[1].body.sha.Some? ==> sent[1].body.sha == lookup.sha
    ensures lookup.status != 200 ==> sent[1].body.sha == None
    ensures result.Failure? <==> RaisesForStatus(reply.status)
    ensures result.Failure? ==> result.error == HttpError(reply.status)
    ensures result.Success? ==> result.value == reply.body
  {
    var url := ContentsUrl(owner, repo, path);
    var headers := GithubHeaders(pat);
    var get := Lookup(url, headers, branch);
    var sha: Option<string> := None;
    if lookup.status == 200 {
      sha := lookup.sha;
    }
    var encoded := Base64.Encode(content);
    Base64.DecodeEncode(content);
    var body := WriteBody(message, encoded, branch, None);
    if sha.Some? && sha.value != "" {
      body := body.(sha := sha);
    }
    sent := [get, Write(url, headers, body)];
    if RaisesForStatus(reply.status) {
      result := Failure(HttpError(reply.status));
    } else {
      result := Success(reply.body);
    }
  }
}
