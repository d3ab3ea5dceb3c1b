/** The batch script that creates the eight strategic tasks of the project in
    one Asana project: it builds a fixed list of tasks, each named after its
    sector and described by the five steps of the Nebi-Ula cycle, and posts
    them one by one. The network is replaced by a server function that
    answers each request, and the script's two configuration constants
    become parameters, so that the guard against unedited placeholders can
    be stated. */
module AsanaCreateTasks {
  import opened Wrappers
  import opened Http
  import opened AsanaGithub

  const PatPlaceholder: string := "YOUR_ASANA_PAT"
  const ProjectPlaceholder: string := "YOUR_PROJECT_GID"

  /** The meta-tag line every description starts with; downstream automation
      reacts to it. */
  const InitTag: string := "#NebiUla_Init\n"

  const RefusalMessage: string :=
    "Please replace ASANA_PAT and PROJECT_GID with your actual token and project gid before running the script."

  /** One entry of the task list: the dictionary with `name` and `notes`. */
  datatype Task = Task(name: string, notes: string)

  /** The eight sectors, in the order the tasks are created. */
  datatype Sector = Governance | Energy | Ecology | Science | Economy | Security | Culture | Urban

  const Sectors: seq<Sector> := [Governance, Energy, Ecology, Science, Economy, Security, Culture, Urban]

  /** The upper-case label a task name carries after its number. */
  function Label(s: Sector): string {
    match s
    case Governance => "GOVERNANCE"
    case Energy => "ENERGY"
    case Ecology => "ECOLOGY"
    case Science => "SCIENCE"
    case Economy => "ECONOMY"
    case Security => "SECURITY"
    case Culture => "CULTURE"
    case Urban => "URBAN"
  }

  /** The sector's number, 1 to 8. */
  function Number(s: Sector): (n: nat)
    ensures 1 <= n <= 8 && Sectors[n - 1] == s
  {
    match s
    case Governance => 1
    case Energy => 2
    case Ecology => 3
    case Science => 4
    case Economy => 5
    case Security => 6
    case Culture => 7
    case Urban => 8
  }

  /** The free text of one task: its title and the five steps of the cycle. */
  datatype Prose = Prose(title: string, thesis: string, antithesis: string, synthesis: string,
                         test: string, stopCondition: string)

  /** The decimal digit of a number below ten. */
  function Digit(n: nat): (c: char)
    requires n < 10
    ensures '0' <= c <= '9'
  {
    ('0' as int + n) as char
  }

  /** The `[0k]` tag at the head of a task name. */
  function NumberTag(s: Sector): string {
    "[0" + [Digit(Number(s))] + "]"
  }

  /** `[0k] LABEL: title`. */
  function NameOf(s: Sector, title: string): string {
    NumberTag(s) + " " + Label(s) + ": " + title
  }

  /** The meta-tag line, then one line per step of the cycle. */
  function NotesOf(p: Prose): string {
    InitTag +
    "Initiation (Thesis): " + p.thesis + "\n" +
    "Conflict (Antithesis): " + p.antithesis + "\n" +
    "Synthesis: " + p.synthesis + "\n" +
    "Test: " + p.test + "\n" +
    "Stop-Condition: " + p.stopCondition
  }

  function TaskOf(s: Sector, p: Prose): Task {
    Task(NameOf(s, p.title), NotesOf(p))
  }

  /** A task name starts with its sector's `[0k]` tag and its label. */
  lemma NameStartsWithTag(s: Sector, title: string)
    ensures |NameOf(s, title)| >= 5 + |Label(s)|
    ensures NameOf(s, title)[..4] == NumberTag(s)
    ensures NameOf(s, title)[5..5 + |Label(s)|] == Label(s)
  {
    var n := NameOf(s, title);
    assert n == NumberTag(s) + (" " + Label(s) + ": " + title);
    assert n == (NumberTag(s) + " ") + Label(s) + (": " + title);
  }

  /** Every description starts with the meta-tag line. */
  lemma NotesStartWithTag(p: Prose)
    ensures |NotesOf(p)| >= |InitTag| && NotesOf(p)[..|InitTag|] == InitTag
  {
    var rest := "Initiation (Thesis): " + p.thesis + "\n" +
                "Conflict (Antithesis): " + p.antithesis + "\n" +
                "Synthesis: " + p.synthesis + "\n" +
                "Test: " + p.test + "\n" +
                "Stop-Condition: " + p.stopCondition;
    assert NotesOf(p) == InitTag + rest;
  }

  /** The facts about one task that the list as a whole is promised. */
  lemma TaskShape(s: Sector, p: Prose)
    ensures |TaskOf(s, p).name| >= 5 && TaskOf(s, p).name[..4] == "[0" + [Digit(Number(s))] + "]"
    ensures TaskOf(s, p).name[2] == Digit(Number(s))
    ensures |TaskOf(s, p).notes| >= |InitTag| && TaskOf(s, p).notes[..|InitTag|] == InitTag
  {
    NameStartsWithTag(s, p.title);
    NotesStartWithTag(p);
  }

  /** A list holding one task per sector, in sector order, is tagged
      `[01]` to `[08]` along the list and every description starts with the
      meta-tag line. */
  lemma ListShape(tasks: seq<Task>, prose: Sector -> Prose)
    requires |tasks| == 8
    requires forall k :: 0 <= k < 8 ==> tasks[k] == TaskOf(Sectors[k], prose(Sectors[k]))
    ensures forall k :: 0 <= k < 8 ==>
              |tasks[k].name| >= 5 && tasks[k].name[..4] == "[0" + [Digit(k + 1)] + "]" &&
              |tasks[k].notes| >= |InitTag| && tasks[k].notes[..|InitTag|] == InitTag
    ensures forall j, k :: 0 <= j < k < 8 ==> tasks[j].name[2] < tasks[k].name[2]
  {
    forall k | 0 <= k < 8
      ensures |tasks[k].name| >= 5 && tasks[k].name[..4] == "[0" + [Digit(k + 1)] + "]"
      ensures tasks[k].name[2] == Digit(k + 1)
      ensures |tasks[k].notes| >= |InitTag| && tasks[k].notes[..|InitTag|] == InitTag
    {
      TaskShape(Sectors[k], prose(Sectors[k]));
    }
  }

  /** `build_tasks`: eight appends, one per sector in order; `prose` gives
      the title and the cycle text of each sector's task. Task `k` (from 1)
      is tagged `[0k]`, so the tags increase along the list, and every
      description starts with the meta-tag line. */
  method BuildTasks(prose: Sector -> Prose) returns (tasks: seq<Task>)
    ensures |tasks| == 8
    ensures forall k :: 0 <= k < 8 ==> tasks[k] == TaskOf(Sectors[k], prose(Sectors[k]))
    ensures forall k :: 0 <= k < 8 ==>
              |tasks[k].name| >= 5 && tasks[k].name[..4] == "[0" + [Digit(k + 1)] + "]" &&
              |tasks[k].notes| >= |InitTag| && tasks[k].notes[..|InitTag|] == InitTag
    ensures forall j, k :: 0 <= j < k < 8 ==> tasks[j].name[2] < tasks[k].name[2]
  {
    tasks := [];
    tasks := tasks + [TaskOf(Governance, prose(Governance))];
    tasks := tasks + [TaskOf(Energy, prose(Energy))];
    tasks := tasks + [TaskOf(Ecology, prose(Ecology))];
    tasks := tasks + [TaskOf(Science, prose(Science))];
    tasks := tasks + [TaskOf(Economy, prose(Economy))];
    tasks := tasks + [TaskOf(Security, prose(Security))];
    tasks := tasks + [TaskOf(Culture, prose(Culture))];
    tasks := tasks + [TaskOf(Urban, prose(Urban))];
    ListShape(tasks, prose);
  }

  /** The POST `create_tasks` sends for one task: the shared URL and headers,
      and a body with the name, the notes and the one project, with neither
      a workspace nor tags. */
  function PostOf(pat: string, projectGid: string, t: Task): (r: TaskPost)
    ensures r.data.workspace.None? && r.data.tags.None?
  {
    TaskPost(AsanaTasksUrl, AsanaHeaders(pat), TaskData(t.name, t.notes, None, [projectGid], None))
  }

  /** `create_tasks`: one POST per task, in list order. The reply is only
      reported, never checked, so no status stops the loop. `server(k, r)`
      is the reply to the `k`-th request `r`. */
  method CreateTasks(pat: string, projectGid: string, tasks: seq<Task>, server: (nat, TaskPost) -> Response)
    returns (sent: seq<TaskPost>, replies: seq<Response>)
    ensures |sent| == |tasks| && |replies| == |tasks|
    ensures forall k :: 0 <= k < |tasks| ==>
              sent[k].url == AsanaTasksUrl && sent[k].headers == AsanaHeaders(pat) &&
              sent[k].data == TaskData(tasks[k].name, tasks[k].notes, None, [projectGid], None)
    ensures forall k :: 0 <= k < |tasks| ==> replies[k] == server(k, sent[k])
  {
    sent, replies := [], [];
    for k := 0 to |tasks|
      invariant |sent| == k && |replies| == k
      invariant forall j :: 0 <= j < k ==> sent[j] == PostOf(pat, projectGid, tasks[j])
      invariant forall j :: 0 <= j < k ==> replies[j] == server(j, sent[j])
    {
      var request := PostOf(pat, projectGid, tasks[k]);
      var response := server(k, request);
      sent := sent + [request];
      replies := replies + [response];
    }
  }

  /** What running the script amounts to: it refuses, raising `SystemExit`
      with a message, which Python writes to standard error before exiting
      with status 1; or it builds the tasks and posts them. */
  datatype Outcome =
    | Refused(message: string, exit: int)
    | Ran(tasks: seq<Task>, sent: seq<TaskPost>, replies: seq<Response>)

  /** The script's entry point, with its two constants as parameters: if
      either still holds its placeholder it stops before building or sending
      anything; otherwise it posts the eight tasks, in order. */
  method RunScript(pat: string, projectGid: string, prose: Sector -> Prose, server: (nat, TaskPost) -> Response)
    returns (outcome: Outcome)
    ensures outcome.Refused? <==> pat == PatPlaceholder || projectGid == ProjectPlaceholder
    ensures outcome.Refused? ==> outcome.message == RefusalMessage && outcome.exit == 1
    ensures outcome.Ran? ==>
              |outcome.tasks| == 8 && |outcome.sent| == 8 && |outcome.replies| == 8 &&
              forall k :: 0 <= k < 8 ==>
                outcome.tasks[k] == TaskOf(Sectors[k], prose(Sectors[k])) &&
                outcome.sent[k] == PostOf(pat, projectGid, outcome.tasks[k]) &&
                outcome.replies[k] == server(k, outcome.sent[k])
  {
    if pat == PatPlaceholder || projectGid == ProjectPlaceholder {
      return Refused(RefusalMessage, 1);
    }
    var tasks := BuildTasks(prose);
    var sent, replies := CreateTasks(pat, projectGid, tasks, server);
    outcome := Ran(tasks, sent, replies);
  }
}
