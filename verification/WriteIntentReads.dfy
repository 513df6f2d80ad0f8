/** What an accepted command line looks like, word by word. */
module WriteIntentReads {
  import opened Common
  import opened WriteIntent

  // ----- words

  /** The word is a path to the program, or its bare name. */
  ghost predicate Runs(word: string, program: string) {
    word == program || exists dir :: word == dir + "/" + program
  }

  lemma {:induction false} LastSegmentOfPath(dir: string, program: string)
    requires '/' !in program
    ensures LastSegment(dir + "/" + program) == program
  {
    var s := dir + "/" + program;
    if program != "" {
      var n := |program| - 1;
      LastSegmentOfPath(dir, program[..n]);
      assert s[..|s| - 1] == dir + "/" + program[..n] && s[|s| - 1] == program[n] && program[n] in program;
    }
  }

  lemma {:induction false} LastSegmentOfName(program: string)
    requires '/' !in program
    ensures LastSegment(program) == program
  {
    if program != "" {
      LastSegmentOfName(program[..|program| - 1]);
      assert program[|program| - 1] in program;
    }
  }

  lemma RunsItself(word: string)
    ensures Runs(word, word)
  {
  }

  lemma RunsNothing(word: string)
    requires word != "" && word[|word| - 1] == '/'
    ensures Runs(word, "")
  {
    assert word == word[..|word| - 1] + "/" + "";
  }

  lemma {:induction false} LastSegmentIsEnd(s: string)
    ensures '/' !in LastSegment(s) && Runs(s, LastSegment(s))
  {
    hide Runs;
    if s == "" {
      RunsItself(s);
    } else if s[|s| - 1] == '/' {
      RunsNothing(s);
    } else {
      var front, c := s[..|s| - 1], s[|s| - 1];
      LastSegmentIsEnd(front);
      RunsLonger(front, LastSegment(front), c);
      assert s == front + [c];
    }
  }

  lemma RunsLonger(word: string, program: string, c: char)
    requires Runs(word, program)
    ensures Runs(word + [c], program + [c])
  {
    if dir :| word == dir + "/" + program {
      assert word + [c] == dir + "/" + (program + [c]);
    }
  }

  lemma RunsIff(word: string, program: string)
    requires '/' !in program
    ensures LastSegment(word) == program <==> Runs(word, program)
  {
    hide LastSegment;
    LastSegmentIsEnd(word);
    if word == program { LastSegmentOfName(program); }
    if dir :| word == dir + "/" + program { LastSegmentOfPath(dir, program); }
  }

  /** The word is `head`, or `head` with an `=`-joined value. */
  predicate Carries(word: string, head: string) {
    word == head || (|word| > |head| && word[..|head|] == head && word[|head|] == '=')
  }

  lemma {:induction false} CarriesIff(word: string, head: string)
    requires '=' !in head
    ensures BeforeEquals(word) == head <==> Carries(word, head)
  {
    if head == "" {
      assert word != "" ==> word[..0] == "";
    } else if word != "" && word[0] != '=' {
      assert head[0] in head;
      if word[0] == head[0] {
        CarriesIff(word[1..], head[1..]);
        assert head == [head[0]] + head[1..] && word == [word[0]] + word[1..];
        if |word| > |head| { assert word[..|head|] == [word[0]] + word[1..][..|head| - 1]; }
      }
    }
  }

  // ----- what reads

  /** No word after the program carries a git subcommand that writes. */
  ghost predicate GitReads(args: seq<string>) {
    forall i, head :: 1 <= i < |args| && Carries(args[i], head) ==>
      head !in {"push", "commit", "merge", "rebase", "reset", "checkout", "switch", "add", "rm", "mv", "tag", "branch",
                "pull", "fetch", "clone", "remote", "submodule", "config", "apply", "stash", "worktree", "notes", "am",
                "cherry-pick", "revert", "clean"}
  }

  /** `gh auth status`, without a flag that shows the token. */
  predicate AuthStatusReads(args: seq<string>) {
    && |args| >= 3 && args[1] == "auth" && args[2] == "status"
    && forall i :: 3 <= i < |args| ==> !Carries(args[i], "-t") && !Carries(args[i], "--show-token")
  }

  /** A group that reads, without a leaf or a flag that writes. */
  predicate GroupReads(args: seq<string>) {
    && |args| >= 2
    && args[1] in {"browse", "cache", "issue", "label", "list", "pr", "project", "release", "repo", "run", "search",
                   "status", "variable", "workflow"}
    && (|args| >= 3 ==>
          && args[2] !in {"approve", "close", "comment", "create", "delete", "deploy", "dismiss", "edit", "enable",
                          "lock", "merge", "publish", "ready", "reopen", "rerun", "review", "set", "submit", "unlock",
                          "update", "upload"}
          && (args[1] == "workflow" ==> args[2] !in {"dispatch", "enable", "run"})
          && (args[1] == "run" ==> args[2] !in {"cancel", "delete", "rerun"}))
    && forall i :: 2 <= i < |args| ==>
         args[i] !in {"--approve", "--comment", "--delete-branch", "--draft", "--ready", "--request-changes",
                      "--squash", "--rebase", "--merge"}
  }

  /** All methods named agree and read, and no word supplies a request body. */
  ghost predicate ApiReads(argv: seq<string>) {
    && (forall m :: m in Methods(argv, 0) && Strip(m) != "" ==> UpperAll(Strip(m)) in {"GET", "HEAD", "OPTIONS"})
    && (forall m, n :: m in Methods(argv, 0) && n in Methods(argv, 0) && Strip(m) != "" && Strip(n) != "" ==>
          UpperAll(Strip(m)) == UpperAll(Strip(n)))
    && (forall i :: 0 <= i < |argv| ==>
          argv[i] !in {"-f", "-F", "--field", "--raw-field", "--input", "-i"}
          && !(|argv[i]| >= 8 && argv[i][..8] == "--input="))
  }

  lemma DistinctMembers(methods: seq<string>, v: string)
    ensures v in Distinct(methods) <==> exists m :: m in methods && Strip(m) != "" && UpperAll(Strip(m)) == v
  {
    hide Strip, UpperAll;
    if m :| m in methods && Strip(m) != "" && UpperAll(Strip(m)) == v {
      var i :| 0 <= i < |methods| && methods[i] == m;
    }
  }

  lemma SizeAboveOne(s: set<string>)
    ensures |s| > 1 <==> exists a, b :: a in s && b in s && a != b
  {
    if s == {} {
    } else {
      var a :| a in s;
      if s - {a} == {} {
        assert s == {a};
      } else {
        var b :| b in s - {a};
        SubsetSize({a, b}, s);
        assert |{a, b}| == 2;
      }
    }
  }

  lemma ApiReadsIff(argv: seq<string>)
    ensures ApiIntent(argv).None? <==> ApiReads(argv)
  {
    hide Distinct, Methods, Strip, UpperAll, FieldFlag;
    var methods := Methods(argv, 0);
    var distinct := Distinct(methods);
    forall v ensures v in distinct <==> exists m :: m in methods && Strip(m) != "" && UpperAll(Strip(m)) == v {
      DistinctMembers(methods, v);
    }
    SizeAboveOne(distinct);
    forall i | 0 <= i < |argv|
      ensures FieldFlag(argv[i]) <==> argv[i] in {"-f", "-F", "--field", "--raw-field", "--input", "-i"}
                                      || (|argv[i]| >= 8 && argv[i][..8] == "--input=")
    {
      FieldFlagIff(argv[i]);
    }
    forall m | m in methods && Strip(m) != "" ensures UpperAll(Strip(m)) in distinct {}
  }

  lemma FieldFlagIff(word: string)
    ensures FieldFlag(word) <==> word in {"-f", "-F", "--field", "--raw-field", "--input", "-i"}
                                 || (|word| >= 8 && word[..8] == "--input=")
  {
    if "--input=" <= word { assert word[..8] == "--input="; }
  }

  lemma GitIff(args: seq<string>)
    requires args != []
    ensures !GitWriting(args[1..]) <==> GitReads(args)
  {
    hide BeforeEquals, Carries;
    forall i, head | 1 <= i < |args| && head in GIT_WRITES
      ensures BeforeEquals(args[1..][i - 1]) == head <==> Carries(args[i], head)
    {
      NoEqualsInSubcommands(head);
      CarriesIff(args[i], head);
    }
    GitSubcommands();
    if i :| 0 <= i < |args[1..]| && BeforeEquals(args[1..][i]) in GIT_WRITES {
      assert Carries(args[i + 1], BeforeEquals(args[1..][i]));
    }
  }

  lemma GitSubcommands()
    ensures GIT_WRITES == {"push", "commit", "merge", "rebase", "reset", "checkout", "switch", "add", "rm", "mv", "tag",
                           "branch", "pull", "fetch", "clone", "remote", "submodule", "config", "apply", "stash",
                           "worktree", "notes", "am", "cherry-pick", "revert", "clean"}
  {
  }

  lemma NoEqualsInSubcommands(head: string)
    requires head in GIT_WRITES
    ensures '=' !in head
  {
  }

  lemma AuthIff(args: seq<string>)
    requires |args| >= 2 && args[1] == "auth"
    ensures AuthReads(args[2..]) <==> AuthStatusReads(args)
  {
    hide BeforeEquals, Carries;
    var rest := args[2..];
    assert forall i :: 2 <= i < |args| ==> rest[i - 2] == args[i];
    forall i | 3 <= i < |args|
      ensures (BeforeEquals(args[i]) == "-t" <==> Carries(args[i], "-t"))
              && (BeforeEquals(args[i]) == "--show-token" <==> Carries(args[i], "--show-token"))
    {
      CarriesIff(args[i], "-t");
      CarriesIff(args[i], "--show-token");
      CarriesItself(args[i]);
    }
    forall i | 3 <= i < |args| ensures args[i] in TOKEN_REVEALING_FLAGS ==> !AuthStatusReads(args) {
      CarriesItself(args[i]);
    }
  }

  lemma CarriesItself(word: string)
    ensures Carries(word, word)
  {
  }

  lemma GroupIff(args: seq<string>)
    requires |args| >= 2 && args[1] in READ_SUBCOMMANDS && args[1] != "api"
    ensures !(|args| >= 3 && LeafWrites(args[1], args[2])) && !FlagWrites(args[1..]) <==> GroupReads(args)
  {
    var rest := args[1..];
    assert forall i :: 1 <= i < |args| ==> rest[i - 1] == args[i];
    if i :| 2 <= i < |args| && args[i] in WRITE_FLAGS { assert rest[i - 1] in WRITE_FLAGS; }
  }

  /** A command line is taken for a read exactly when, empty words aside, it runs git without a subcommand that
      writes, or gh with `auth status`, with an `api` call that reads, or with a group that reads. */
  lemma AcceptedIff(argv: seq<string>)
    ensures var args := NonEmpty(argv);
            WriteIntentReason(argv).None? <==>
              && args != []
              && ((Runs(args[0], "git") && GitReads(args))
                  || (Runs(args[0], "gh")
                      && (AuthStatusReads(args) || (|args| >= 2 && args[1] == "api" && ApiReads(args[2..]))
                          || GroupReads(args))))
  {
    hide LastSegment, GitReads, GitWriting, AuthStatusReads, GroupReads, ApiReads, GhIntent, Runs, NonEmpty;
    var args := NonEmpty(argv);
    if args != [] {
      RunsIff(args[0], "git");
      RunsIff(args[0], "gh");
      GitIff(args);
      GhIff(args);
    }
  }

  lemma GhIff(args: seq<string>)
    requires args != []
    ensures GhIntent(args[1..]).None? <==>
              AuthStatusReads(args) || (|args| >= 2 && args[1] == "api" && ApiReads(args[2..])) || GroupReads(args)
  {
    hide AuthReads, ApiIntent, LeafWrites, FlagWrites, ApiReads;
    var rest := args[1..];
    if rest != [] {
      assert rest[1..] == args[2..];
      Groups(rest[0]);
      hide GroupReads, AuthStatusReads;
      GroupNames(args);
      ApiReadsIff(args[2..]);
      if rest[0] == "auth" { AuthIff(args); }
      if rest[0] in READ_SUBCOMMANDS && rest[0] != "api" { GroupIff(args); }
    }
  }

  lemma GroupNames(args: seq<string>)
    requires |args| >= 2
    ensures GroupReads(args) ==> args[1] in READ_SUBCOMMANDS && args[1] != "api"
    ensures AuthStatusReads(args) ==> args[1] == "auth"
  {
    hide Carries;
  }

  /** The three kinds of groups are disjoint. */
  lemma Groups(sub: string)
    ensures sub in READ_SUBCOMMANDS ==> sub !in WRITE_SUBCOMMANDS && sub !in CREDENTIAL_SUBCOMMANDS
    ensures "auth" in CREDENTIAL_SUBCOMMANDS && "auth" !in WRITE_SUBCOMMANDS
    ensures "api" in READ_SUBCOMMANDS
  {
  }

  // ----- the methods of an api call

  /** Word `i` sets the method: a flag with its value behind it, or a glued value. The word before it is no flag,
      so it cannot be a value itself. */
  predicate SetsMethod(argv: seq<string>, i: nat, method_: string) {
    && i < |argv| && (i == 0 || argv[i - 1] !in {"--method", "-X"})
    && ((argv[i] in {"--method", "-X"} && i + 1 < |argv| && argv[i + 1] == method_)
        || (method_ != "" && (argv[i] == "--method=" + method_ || argv[i] == "-X" + method_)))
  }

  lemma GluedIs(method_: string)
    requires method_ != ""
    ensures GluedMethod("--method=" + method_) == [method_] && !IsMethodFlag("--method=" + method_)
    ensures GluedMethod("-X" + method_) == [method_] && !IsMethodFlag("-X" + method_)
  {
    var long, short := "--method=" + method_, "-X" + method_;
    assert long[9..] == method_ && short[2..] == method_;
    assert short[1] == 'X' && "--method="[1] == '-' && long[8] == '=';
  }

  lemma MethodIsRead(argv: seq<string>, i: nat, method_: string)
    requires SetsMethod(argv, i, method_)
    ensures method_ in Methods(argv, i)
  {
    hide GluedMethod, IsMethodFlag;
    FlagsAre(argv[i]);
    if IsMethodFlag(argv[i]) {
      assert method_ in [argv[i + 1]] by { if method_ != "" { GluedIs(method_); } }
    } else {
      GluedIs(method_);
      assert method_ in GluedMethod(argv[i]);
    }
  }

  lemma FlagsAre(token: string)
    ensures IsMethodFlag(token) <==> token in {"--method", "-X"}
  {
  }

  /** Every such method is read, wherever it stands. */
  lemma {:induction false} SetMethodIsRead(argv: seq<string>, from: nat, i: nat, method_: string)
    requires SetsMethod(argv, i, method_) && from <= i
    ensures method_ in Methods(argv, from)
    decreases i - from
  {
    hide GluedMethod;
    if from == i {
      MethodIsRead(argv, i, method_);
    } else if IsMethodFlag(argv[from]) {
      assert from + 1 != i;
      SetMethodIsRead(argv, from + 2, i, method_);
    } else {
      SetMethodIsRead(argv, from + 1, i, method_);
    }
  }

  /** So an accepted api call names no method but GET, HEAD and OPTIONS, in whatever place, form or case. */
  lemma AcceptedCallReads(argv: seq<string>, i: nat, method_: string)
    requires ApiIntent(argv).None? && SetsMethod(argv, i, method_) && Strip(method_) != ""
    ensures UpperAll(Strip(method_)) in {"GET", "HEAD", "OPTIONS"}
  {
    hide Strip, UpperAll, Methods, SetsMethod;
    ApiReadsIff(argv);
    SetMethodIsRead(argv, 0, i, method_);
  }

  /** Only such words name methods: without any flag of the kind, none is read. */
  lemma {:induction false} NoFlagNoMethod(argv: seq<string>, from: nat)
    requires forall i :: from <= i < |argv| ==>
               argv[i] !in {"--method", "-X"} && !("--method=" <= argv[i]) && !("-X" <= argv[i])
    ensures Methods(argv, from) == []
    decreases |argv| - from
  {
    if from < |argv| { NoFlagNoMethod(argv, from + 1); }
  }
}
