/** Package-manager detection and selection in the scaffolding tool (bin/cli.js): the
    fixed profile table, detection from the `npm_config_user_agent` hint, the `--use-<pm>`
    override flags, and the interactive fallback. */
module PackageManagers {
  import opened Wrappers
  import opened Text

  datatype PackageManager = Npm | Yarn | Pnpm | Bun

  /** One entry of the `packageManagers` table. */
  datatype Profile = Profile(name: string, install: string, run: string)

  /** The table's keys in declaration order, which is the order `Object.keys` yields. */
  const Order: seq<PackageManager> := [Npm, Yarn, Pnpm, Bun]

  function Key(pm: PackageManager): string
  {
    match pm
    case Npm => "npm"
    case Yarn => "yarn"
    case Pnpm => "pnpm"
    case Bun => "bun"
  }

  /** `Object.keys(packageManagers)` */
  const Keys: seq<string> := ["npm", "yarn", "pnpm", "bun"]

  /** Position of a manager in `Order`. */
  function Rank(pm: PackageManager): (k: nat)
    ensures k < |Order| && Order[k] == pm && Keys[k] == Key(pm)
  {
    match pm
    case Npm => 0
    case Yarn => 1
    case Pnpm => 2
    case Bun => 3
  }

  /** The profile of each manager: its install and run commands start with its own name. */
  function ProfileOf(pm: PackageManager): (p: Profile)
    ensures p.name == Key(pm)
    ensures StartsWith(p.install, Key(pm)) && StartsWith(p.run, Key(pm))
  {
    match pm
    case Npm => Profile("npm", "npm install", "npm run")
    case Yarn => Profile("yarn", "yarn", "yarn")
    case Pnpm => Profile("pnpm", "pnpm install", "pnpm")
    case Bun => Profile("bun", "bun install", "bun run")
  }

  /** `process.env.npm_config_user_agent || ''`: an absent hint reads as empty. */
  function HintText(userAgent: Option<string>): (hint: string)
    ensures userAgent.None? ==> hint == ""
    ensures userAgent.Some? ==> hint == userAgent.value
  {
    if userAgent.Some? then userAgent.value else ""
  }

  /** `detectPackageManager`: a yarn, pnpm or bun prefix on the hint, in that order,
      otherwise npm. Any manager other than npm is detected only from its own prefix. */
  function Detect(userAgent: Option<string>): (pm: PackageManager)
    ensures pm != Npm ==> StartsWith(HintText(userAgent), Key(pm))
    ensures pm == Npm <==> forall q :: q != Npm ==> !StartsWith(HintText(userAgent), Key(q))
  {
    var hint := HintText(userAgent);
    if StartsWith(hint, "yarn") then Yarn
    else if StartsWith(hint, "pnpm") then Pnpm
    else if StartsWith(hint, "bun") then Bun
    else Npm
  }

  /** The three prefixes exclude each other, so the order in which they are tried does not
      matter: a hint starting with a manager's name selects that manager. */
  lemma DetectByPrefix(userAgent: Option<string>, pm: PackageManager)
    requires pm != Npm && StartsWith(HintText(userAgent), Key(pm))
    ensures Detect(userAgent) == pm
  {
    var hint := HintText(userAgent);
    assert hint[0] == Key(pm)[0];
    assert Key(Detect(userAgent))[0] == hint[0] || Detect(userAgent) == Npm;
  }

  /** An absent or empty hint always gives npm. */
  lemma DetectDefault(userAgent: Option<string>)
    requires userAgent == None || userAgent == Some("")
    ensures Detect(userAgent) == Npm
  {
  }

  /** `Object.keys(packageManagers).indexOf(detectedPM)`: the prompt's pre-selected
      position is never -1 and points at the detected manager. */
  function PromptInitial(userAgent: Option<string>): (i: int)
    ensures 0 <= i < |Order| && Order[i] == Detect(userAgent)
  {
    var pm := Detect(userAgent);
    assert Keys[Rank(pm)] == Key(pm);
    IndexOf(Keys, Key(pm))
  }

  function Flag(pm: PackageManager): string
  {
    "--use-" + Key(pm)
  }

  /** The first of `candidates` whose `--use-<pm>` flag occurs anywhere in `argv`. */
  function FirstFlagged(candidates: seq<PackageManager>, argv: seq<string>): (r: Option<PackageManager>)
    ensures r.None? <==> forall j :: 0 <= j < |candidates| ==> Flag(candidates[j]) !in argv
    ensures r.Some? ==> exists k :: 0 <= k < |candidates| && candidates[k] == r.value
                          && Flag(r.value) in argv
                          && forall j :: 0 <= j < k ==> Flag(candidates[j]) !in argv
  {
    if candidates == [] then None
    else if Flag(candidates[0]) in argv then Some(candidates[0])
    else
      var r := FirstFlagged(candidates[1..], argv);
      assert forall j :: 1 <= j < |candidates| ==> candidates[j] == candidates[1..][j - 1];
      r
  }

  /** The override flags, tried in the order npm, yarn, pnpm, bun: the chosen manager's
      flag is present and no earlier manager's is; none is chosen only when no flag is
      present. */
  function FlagChoice(argv: seq<string>): (r: Option<PackageManager>)
    ensures r.None? <==> forall q :: Flag(q) !in argv
    ensures r.Some? ==> Flag(r.value) in argv && forall q :: Rank(q) < Rank(r.value) ==> Flag(q) !in argv
  {
    var r := FirstFlagged(Order, argv);
    if r.None? then
      assert forall q :: Flag(q) !in argv by {
        forall q ensures Flag(q) !in argv {
          assert Flag(Order[Rank(q)]) !in argv;
        }
      }
      r
    else
      assert forall q :: Rank(q) < Rank(r.value) ==> Flag(q) !in argv by {
        forall q | Rank(q) < Rank(r.value) ensures Flag(q) !in argv {
          assert Order[Rank(q)] == q;
        }
      }
      r
  }

  /** With both `--use-bun` and `--use-npm` present, npm wins. */
  lemma NpmFlagWinsOverBun(argv: seq<string>)
    requires "--use-npm" in argv && "--use-bun" in argv
    ensures FlagChoice(argv) == Some(Npm)
  {
    assert Flag(Npm) == "--use-npm";
  }

  /** The `for (const pm of Object.keys(packageManagers))` loop that breaks at the first
      flag present. */
  method SelectFromFlags(argv: seq<string>) returns (selected: Option<PackageManager>)
    ensures selected == FlagChoice(argv)
  {
    selected := None;
    for i := 0 to |Order|
      invariant forall j :: 0 <= j < i ==> Flag(Order[j]) !in argv
    {
      if Flag(Order[i]) in argv {
        selected := Some(Order[i]);
        assert Rank(Order[i]) == i;
        break;
      }
    }
    assert selected.None? ==> forall q :: Flag(q) !in argv by {
      if selected.None? {
        forall q ensures Flag(q) !in argv {
          assert Flag(Order[Rank(q)]) !in argv;
        }
      }
    }
  }

  /** What the select prompt returns: the pre-selected entry, another entry, or nothing
      when the user cancels. */
  datatype PromptAnswer = AcceptInitial | Pick(pm: PackageManager) | Dismiss

  datatype Selection = Selected(pm: PackageManager) | Cancelled

  /** Lines 126-157: a flag decides; otherwise the prompt, pre-selected on the detected
      manager; a dismissed prompt cancels the run. */
  function Choose(argv: seq<string>, userAgent: Option<string>, answer: PromptAnswer): (r: Selection)
    ensures FlagChoice(argv).Some? ==> r == Selected(FlagChoice(argv).value)
    ensures FlagChoice(argv).None? && answer == AcceptInitial ==> r == Selected(Detect(userAgent))
    ensures FlagChoice(argv).None? && answer.Pick? ==> r == Selected(answer.pm)
    ensures r == Cancelled <==> FlagChoice(argv).None? && answer == Dismiss
  {
    var flagged := FlagChoice(argv);
    if flagged.Some? then Selected(flagged.value)
    else match answer
      case AcceptInitial => Selected(Order[PromptInitial(userAgent)])
      case Pick(pm) => Selected(pm)
      case Dismiss => Cancelled
  }

  /** An explicit flag beats the environment hint and is never cancelled: `--use-pnpm`
      without `--use-npm` or `--use-yarn` selects pnpm whatever the hint and the prompt. */
  lemma FlagOverridesDetection(argv: seq<string>, userAgent: Option<string>, answer: PromptAnswer)
    requires "--use-pnpm" in argv && "--use-npm" !in argv && "--use-yarn" !in argv
    ensures Choose(argv, userAgent, answer) == Selected(Pnpm)
  {
    assert Flag(Pnpm) == "--use-pnpm" && Flag(Npm) == "--use-npm" && Flag(Yarn) == "--use-yarn";
    var r := FlagChoice(argv);
    assert r.Some?;
    assert Rank(r.value) <= 2;
  }

  /** Without a flag, accepting the prompt's default gives the detected manager; the run
      is cancelled exactly when no flag is present and the prompt is dismissed. */
  lemma ChooseWithoutFlag(argv: seq<string>, userAgent: Option<string>, answer: PromptAnswer)
    ensures FlagChoice(argv).None? && answer == AcceptInitial ==> Choose(argv, userAgent, answer) == Selected(Detect(userAgent))
    ensures Choose(argv, userAgent, answer) == Cancelled <==> (forall q :: Flag(q) !in argv) && answer == Dismiss
  {
  }
}
