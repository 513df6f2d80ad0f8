/** The shape classifier of the auditor's read-only surface (src/lh_harness/auditor_verify.py). */
module WriteIntent {
  import opened Common

  datatype Intent =
    | EmptyCommand | ProgramNotAllowed | BareGh | GhWrites | Credential | GroupNotAllowed | ConflictingMethods
    | HttpMethod | RequestBody | WriteLeaf | WriteFlag | GitWrites

  const READ_SUBCOMMANDS := {"api", "browse", "cache", "issue", "label", "list", "pr", "project", "release", "repo",
                             "run", "search", "status", "variable", "workflow"}
  const CREDENTIAL_SUBCOMMANDS := {"auth", "config", "secret"}
  const TOKEN_REVEALING_FLAGS := {"-t", "--show-token"}
  const WRITE_SUBCOMMANDS := {"annotate", "api-write", "codespace", "gist", "ruleset", "ssh-key", "ssh-key-add"}
  const WRITE_LEAVES := {"approve", "close", "comment", "create", "delete", "deploy", "dismiss", "edit", "enable",
                         "lock", "merge", "publish", "ready", "reopen", "rerun", "review", "set", "submit", "unlock",
                             "update", "upload"}
  const WORKFLOW_LEAVES := {"dispatch", "enable", "run"}
  const RUN_LEAVES := {"cancel", "delete", "rerun"}
  const WRITE_FLAGS := {"--approve", "--comment", "--delete-branch", "--draft", "--ready", "--request-changes",
                        "--squash", "--rebase", "--merge"}
  const READ_VERBS := {"GET", "HEAD", "OPTIONS"}
  const FIELD_FLAGS := {"-f", "-F", "--field", "--raw-field", "--input", "-i"}
  const GIT_WRITES := {"push", "commit", "merge", "rebase", "reset", "checkout", "switch", "add", "rm", "mv", "tag",
                       "branch", "pull", "fetch", "clone", "remote", "submodule", "config", "apply", "stash",
                           "worktree", "notes", "am", "cherry-pick", "revert", "clean"}

  function Upper(c: char): char {
    if 'a' <= c <= 'z' then c - 'a' + 'A' else if c == '\U{131}' then 'I' else if c == '\U{17f}' then 'S' else c
  }

  function UpperAll(s: string): string {
    seq(|s|, i requires 0 <= i < |s| => Upper(s[i]))
  }

  /** `token.split("=", 1)[0]`. */
  function BeforeEquals(token: string): string {
    if token == "" || token[0] == '=' then "" else [token[0]] + BeforeEquals(token[1..])
  }

  function NonEmpty(argv: seq<string>): seq<string> {
    if argv == [] then [] else if argv[0] == "" then NonEmpty(argv[1..]) else [argv[0]] + NonEmpty(argv[1..])
  }

  // ----- gh api

  predicate IsMethodFlag(token: string) {
    token == "--method" || token == "-X"
  }

  /** The method an `=`-joined or glued flag carries. */
  function GluedMethod(token: string): seq<string> {
    if "--method=" <= token && |token| > 9 then [token[9..]]
    else if "-X" <= token && |token| > 2 then [token[2..]]
    else []
  }

  function Methods(argv: seq<string>, i: nat): seq<string>
    decreases |argv| - i
  {
    if i >= |argv| then []
    else if IsMethodFlag(argv[i]) && i + 1 < |argv| then [argv[i + 1]] + Methods(argv, i + 2)
    else GluedMethod(argv[i]) + Methods(argv, i + 1)
  }

  function Distinct(methods: seq<string>): set<string> {
    set i | 0 <= i < |methods| && Strip(methods[i]) != "" :: UpperAll(Strip(methods[i]))
  }

  predicate FieldFlag(token: string) {
    token in FIELD_FLAGS || "--input=" <= token
  }

  function ApiIntent(argv: seq<string>): Option<Intent> {
    var distinct := Distinct(Methods(argv, 0));
    if |distinct| > 1 then Some(ConflictingMethods)
    else if exists m :: m in distinct && m !in READ_VERBS then Some(HttpMethod)
    else if exists i :: 0 <= i < |argv| && FieldFlag(argv[i]) then Some(RequestBody)
    else None
  }

  method GhApiWriteIntent(argv: seq<string>) returns (intent: Option<Intent>)
    ensures intent == ApiIntent(argv)
  {
    hide Distinct, FieldFlag, GluedMethod;
    var methods: seq<string> := [];
    var index := 0;
    while index < |argv|
      invariant 0 <= index <= |argv|
      invariant methods + Methods(argv, index) == Methods(argv, 0)
    {
      var token := argv[index];
      if (token == "--method" || token == "-X") && index + 1 < |argv| {
        methods := methods + [argv[index + 1]];
        index := index + 2;
      } else {
        methods := methods + GluedMethod(token);
        index := index + 1;
      }
    }
    assert methods + [] == methods;
    var distinct := Distinct(methods);
    if |distinct| > 1 { return Some(ConflictingMethods); }
    if exists m :: m in distinct && m !in READ_VERBS { return Some(HttpMethod); }
    for i := 0 to |argv|
      invariant forall k :: 0 <= k < i ==> !FieldFlag(argv[k])
    {
      if FieldFlag(argv[i]) { return Some(RequestBody); }
    }
    return None;
  }

  // ----- the classifier

  predicate AuthReads(args: seq<string>) {
    args != [] && args[0] == "status"
    && forall i :: 1 <= i < |args| ==>
        args[i] !in TOKEN_REVEALING_FLAGS && BeforeEquals(args[i]) !in TOKEN_REVEALING_FLAGS
  }

  predicate GitWriting(args: seq<string>) {
    exists i :: 0 <= i < |args| && BeforeEquals(args[i]) in GIT_WRITES
  }

  predicate LeafWrites(sub: string, leaf: string) {
    leaf in WRITE_LEAVES || (sub == "workflow" && leaf in WORKFLOW_LEAVES) || (sub == "run" && leaf in RUN_LEAVES)
  }

  predicate FlagWrites(rest: seq<string>) {
    exists i :: 1 <= i < |rest| && rest[i] in WRITE_FLAGS
  }

  function GhIntent(rest: seq<string>): Option<Intent> {
    if rest == [] then Some(BareGh)
    else if rest[0] in WRITE_SUBCOMMANDS then Some(GhWrites)
    else if rest[0] in CREDENTIAL_SUBCOMMANDS then
      if rest[0] == "auth" && AuthReads(rest[1..]) then None else Some(Credential)
    else if rest[0] !in READ_SUBCOMMANDS then Some(GroupNotAllowed)
    else if rest[0] == "api" then ApiIntent(rest[1..])
    else if |rest| >= 2 && LeafWrites(rest[0], rest[1]) then Some(WriteLeaf)
    else if FlagWrites(rest) then Some(WriteFlag)
    else None
  }

  /** Why an invocation writes; None when it only reads. */
  function WriteIntentReason(argv: seq<string>): Option<Intent> {
    var args := NonEmpty(argv);
    if args == [] then Some(EmptyCommand)
    else
      var program := LastSegment(args[0]);
      if program == "git" then if GitWriting(args[1..]) then Some(GitWrites) else None
      else if program != "gh" then Some(ProgramNotAllowed)
      else GhIntent(args[1..])
  }

  // ----- a refusal cannot be undone by adding arguments

  lemma {:induction false} NonEmptyConcat(a: seq<string>, b: seq<string>)
    ensures NonEmpty(a + b) == NonEmpty(a) + NonEmpty(b)
  {
    NonEmptyStep(a);
    NonEmptyStep(a + b);
    hide NonEmpty;
    if a == [] {
      assert a + b == b;
      assert [] + NonEmpty(b) == NonEmpty(b);
    } else {
      NonEmptyConcat(a[1..], b);
      assert (a + b)[1..] == a[1..] + b && (a + b)[0] == a[0];
      Reassociate(a[0], NonEmpty(a[1..]), NonEmpty(b));
    }
  }

  lemma Reassociate(x: string, a: seq<string>, b: seq<string>)
    ensures [x] + (a + b) == ([x] + a) + b
  {
  }

  lemma NonEmptyStep(a: seq<string>)
    ensures NonEmpty(a) == if a == [] then [] else if a[0] == "" then NonEmpty(a[1..]) else [a[0]] + NonEmpty(a[1..])
  {
  }

  lemma {:induction false} NonEmptyKeeps(a: seq<string>)
    requires forall i :: 0 <= i < |a| ==> a[i] != ""
    ensures NonEmpty(a) == a
  {
    if a != [] {
      NonEmptyStep(a);
      NonEmptyKeeps(a[1..]);
    }
  }

  lemma FlagIsNotGlued(token: string)
    requires IsMethodFlag(token)
    ensures GluedMethod(token) == []
  {
    assert "--method"[1] == '-' && "-X"[1] == 'X';
  }

  /** Every method read from an argument list is still read, in order, when arguments follow. */
  lemma {:induction false} MethodsPersist(argv: seq<string>, extra: seq<string>, i: nat)
    ensures Methods(argv, i) <= Methods(argv + extra, i)
    decreases |argv| - i
  {
    hide GluedMethod, IsMethodFlag;
    var all := argv + extra;
    if i < |argv| {
      assert all[i] == argv[i];
      if IsMethodFlag(argv[i]) && i + 1 < |argv| {
        assert all[i + 1] == argv[i + 1];
        MethodsPersist(argv, extra, i + 2);
      } else {
        if IsMethodFlag(argv[i]) { FlagIsNotGlued(argv[i]); }
        MethodsPersist(argv, extra, i + 1);
      }
    }
  }

  lemma DistinctGrows(a: seq<string>, b: seq<string>)
    requires a <= b
    ensures Distinct(a) <= Distinct(b)
  {
    hide UpperAll, Strip;
    assert forall i :: 0 <= i < |a| ==> a[i] == b[i];
  }

  lemma ApiRefusalPersists(argv: seq<string>, extra: seq<string>)
    requires ApiIntent(argv).Some?
    ensures ApiIntent(argv + extra).Some?
  {
    hide Distinct, FieldFlag, Methods;
    MethodsPersist(argv, extra, 0);
    DistinctGrows(Methods(argv, 0), Methods(argv + extra, 0));
    SubsetSize(Distinct(Methods(argv, 0)), Distinct(Methods(argv + extra, 0)));
    if i :| 0 <= i < |argv| && FieldFlag(argv[i]) {
      assert (argv + extra)[i] == argv[i];
    }
  }

  lemma GhRefusalPersists(rest: seq<string>, extra: seq<string>)
    requires GhIntent(rest).Some? && rest != [] && rest != ["auth"]
    ensures GhIntent(rest + extra).Some?
  {
    hide ApiIntent, LeafWrites, BeforeEquals;
    var all := rest + extra;
    assert forall i :: 0 <= i < |rest| ==> all[i] == rest[i];
    assert all[1..] == rest[1..] + extra;
    if rest[0] == "api" && ApiIntent(rest[1..]).Some? { ApiRefusalPersists(rest[1..], extra); }
    if rest[0] == "auth" && AuthReads(all[1..]) { AuthReadsPrefix(rest[1..], extra); }
    assert FlagWrites(rest) ==> FlagWrites(all);
  }

  lemma AuthReadsPrefix(args: seq<string>, extra: seq<string>)
    requires args != [] && AuthReads(args + extra)
    ensures AuthReads(args)
  {
    hide BeforeEquals;
    assert forall i :: 0 <= i < |args| ==> (args + extra)[i] == args[i];
  }

  /** What is left open: no command, a bare `gh`, or `gh auth` without a leaf. */
  predicate Unfinished(args: seq<string>) {
    args == [] || (LastSegment(args[0]) == "gh" && (|args| == 1 || (|args| == 2 && args[1] == "auth")))
  }

  lemma GitRefusalPersists(args: seq<string>, extra: seq<string>)
    requires GitWriting(args)
    ensures GitWriting(args + extra)
  {
    hide BeforeEquals;
    var i :| 0 <= i < |args| && BeforeEquals(args[i]) in GIT_WRITES;
    assert (args + extra)[i] == args[i];
  }

  lemma TailNotEmpty(args: seq<string>)
    requires args != [] && !Unfinished(args) && LastSegment(args[0]) == "gh"
    ensures args[1..] != [] && args[1..] != ["auth"]
  {
    hide LastSegment;
    assert |args| == 2 ==> args[1..][0] == args[1];
  }

  /** A refused invocation stays refused whatever arguments follow, unless it is still unfinished. */
  lemma RefusalPersists(argv: seq<string>, extra: seq<string>)
    requires WriteIntentReason(argv).Some? && !Unfinished(NonEmpty(argv))
    ensures WriteIntentReason(argv + extra).Some?
  {
    hide GhIntent, LastSegment, GitWriting, NonEmpty;
    NonEmptyConcat(argv, extra);
    var args, more := NonEmpty(argv), NonEmpty(extra);
    assert (args + more)[1..] == args[1..] + more && (args + more)[0] == args[0];
    if LastSegment(args[0]) == "gh" {
      TailNotEmpty(args);
      GhRefusalPersists(args[1..], more);
    } else if LastSegment(args[0]) == "git" {
      GitRefusalPersists(args[1..], more);
    }
  }

  /** Each unfinished invocation is refused, and some arguments turn it into a read. */
  lemma UnfinishedCanBecomeARead(argv: seq<string>) returns (extra: seq<string>)
    requires Unfinished(NonEmpty(argv))
    ensures WriteIntentReason(argv).Some? && WriteIntentReason(argv + extra).None?
  {
    hide GhIntent, LastSegment, GitWriting;
    var args := NonEmpty(argv);
    extra := if args == [] then ["gh", "pr"] else if |args| == 1 then ["pr"] else ["status"];
    NonEmptyConcat(argv, extra);
    NonEmptyKeeps(extra);
    GhIsGh();
    PrReads();
    AuthStatusReads();
    if args != [] { UnfinishedIsRefused(args); }
    if args == [] {
      assert (args + extra)[1..] == ["pr"];
    } else if |args| == 1 {
      assert (args + extra)[1..] == ["pr"];
    } else {
      assert (args + extra)[1..] == ["auth", "status"];
    }
  }

  lemma UnfinishedIsRefused(args: seq<string>)
    requires Unfinished(args) && args != []
    ensures GhIntent(args[1..]).Some?
  {
    if |args| == 2 {
      assert args[1..][1..] == [];
    }
  }

  lemma PrReads()
    ensures GhIntent(["pr"]).None?
  {
    assert !FlagWrites(["pr"]);
  }

  lemma AuthStatusReads()
    ensures GhIntent(["auth", "status"]).None?
  {
    assert ["auth", "status"][1..] == ["status"];
    assert AuthReads(["status"]);
  }

  lemma GhIsGh()
    ensures LastSegment("gh") == "gh"
  {
    assert "gh"[..1] == "g" && "g"[..0] == "";
  }

  /** Exactly when a refusal is final. */
  lemma RefusalIsFinalIff(argv: seq<string>)
    requires WriteIntentReason(argv).Some?
    ensures (forall extra :: WriteIntentReason(argv + extra).Some?) <==> !Unfinished(NonEmpty(argv))
  {
    hide WriteIntentReason, Unfinished;
    if Unfinished(NonEmpty(argv)) {
      var extra := UnfinishedCanBecomeARead(argv);
    } else {
      forall extra ensures WriteIntentReason(argv + extra).Some? { RefusalPersists(argv, extra); }
    }
  }
}
