/**
  Which hooks an install wires (internal/cli/hooks.go) and which markers an uninstall
  takes out (internal/cli/hooks_uninstall.go).
*/
module HookSpecs {
  import opened CommandLine
  import opened HookEntries

  const LOOP_TIP_MATCHER := "Grep|Glob|Edit|MultiEdit|Write|NotebookEdit|Bash"
  const LEGACY_LOOP_TIP_MATCHER := "Grep|Glob|Edit|MultiEdit|Write|NotebookEdit"

  datatype HookSpec = HookSpec(
    title: string, event: string, matcher: string, marker: string, args: seq<string>, supersedes: seq<string>)

  /** The --coach, --read-guard, --route-guard and --boundary flags. */
  datatype Selection = Selection(coach: bool, readGuard: bool, routeGuard: bool, boundary: bool) {
    predicate Nothing() { !coach && !readGuard && !routeGuard && !boundary }
  }

  function ReadGuardArgs(mode: string): seq<string> {
    if mode == "" then ["read-guard"] else ["read-guard", "--mode", mode]
  }

  function BoundaryArgs(provider: string): seq<string> {
    if provider == "openai" then ["boundary-guard", "--client", "codex"] else ["boundary-guard"]
  }

  function RouteGuardArgs(provider: string): seq<string> {
    if provider == "" then ["route-guard"] else ["route-guard", "--provider", provider]
  }

  function CoachSpec(budget: string): HookSpec {
    HookSpec("tokenops: coaching nudge", "Stop", "", "coach-hook", ["coach-hook", "--budget", budget], [])
  }

  function ReadSpec(mode: string): HookSpec {
    HookSpec("tokenops: read dedup", "PreToolUse", "Read", "read-guard", ReadGuardArgs(mode), [])
  }

  function LoopTipSpec(mode: string): HookSpec {
    HookSpec("tokenops: search loops", "PreToolUse", LOOP_TIP_MATCHER, "read-guard", ReadGuardArgs(mode),
             [LEGACY_LOOP_TIP_MATCHER])
  }

  function RouteSpec(provider: string): HookSpec {
    HookSpec("tokenops: model fit", "UserPromptSubmit", "", "route-guard", RouteGuardArgs(provider), [])
  }

  function SubagentSpec(provider: string): HookSpec {
    HookSpec("tokenops: subagent model", "PreToolUse", "Agent", "route-guard", RouteGuardArgs(provider), [])
  }

  function BoundarySpec(provider: string): HookSpec {
    HookSpec("tokenops: action boundaries", "PreToolUse", "*", "boundary-guard", BoundaryArgs(provider), [])
  }

  /** No flag at all means the coach and the read guard. */
  function Effective(sel: Selection): Selection {
    if sel.Nothing() then Selection(true, true, false, false) else sel
  }

  /** `specsForModeWithRoute`. The budget arrives as the text `formatBudget` prints. */
  function SpecsFor(sel: Selection, budget: string, mode: string, provider: string): seq<HookSpec> {
    var s := Effective(sel);
    (if s.coach then [CoachSpec(budget)] else [])
    + (if s.readGuard then [ReadSpec(mode), LoopTipSpec(mode)] else [])
    + (if s.routeGuard then [RouteSpec(provider)] + (if provider == "anthropic" then [SubagentSpec(provider)] else []) else [])
    + (if s.boundary then [BoundarySpec(provider)] else [])
  }

  method SpecsForModeWithRoute(sel: Selection, budget: string, mode: string, provider: string)
    returns (out: seq<HookSpec>)
    ensures out == SpecsFor(sel, budget, mode, provider)
  {
    hide CoachSpec, ReadSpec, LoopTipSpec, RouteSpec, SubagentSpec, BoundarySpec;
    var coach, readGuard := sel.coach, sel.readGuard;
    if sel.Nothing() {
      coach, readGuard := true, true;
    }
    out := [];
    if coach {
      out := out + [CoachSpec(budget)];
    }
    if readGuard {
      out := out + [ReadSpec(mode)];
      out := out + [LoopTipSpec(mode)];
    }
    if sel.routeGuard {
      out := out + [RouteSpec(provider)];
      if provider == "anthropic" {
        out := out + [SubagentSpec(provider)];
      }
    }
    if sel.boundary {
      out := out + [BoundarySpec(provider)];
    }
  }

  function ProviderFor(client: Client): string {
    match client
    case ClaudeCode => "anthropic"
    case Codex => "openai"
    case Cursor => "cursor"
  }

  /** `refuseUnsupportedHook`, over the flags as given. */
  predicate Refused(client: Client, sel: Selection) {
    (client.Cursor? && (sel.boundary || sel.readGuard)) || (client.Codex? && sel.readGuard)
  }

  /** `selectedMarkers`: naming nothing means every marker. */
  function SelectedMarkers(sel: Selection): seq<string> {
    if sel.Nothing() then HOOK_MARKERS
    else (if sel.coach then ["coach-hook"] else []) + (if sel.readGuard then ["read-guard"] else [])
         + (if sel.routeGuard then ["route-guard"] else []) + (if sel.boundary then ["boundary-guard"] else [])
  }

  // ----- what every spec list has in common --------------------------------

  const SPEC_EVENTS := {"Stop", "PreToolUse", "UserPromptSubmit"}

  /** Every matcher an install writes under or retires. */
  const SPEC_MATCHERS := {"", "Read", LOOP_TIP_MATCHER, LEGACY_LOOP_TIP_MATCHER, "Agent", "*"}

  predicate ValidSpec(sp: HookSpec) {
    && sp.event in SPEC_EVENTS
    && sp.matcher in SPEC_MATCHERS
    && (forall i | 0 <= i < |sp.supersedes| :: sp.supersedes[i] in SPEC_MATCHERS)
    && sp.marker in ALL_MARKERS
    && sp.args != [] && sp.args[0] == sp.marker && PlainTokens(sp.args)
    && (|sp.args| > 1 ==> sp.args[1] != sp.marker)
  }

  /** Two specs that cannot disturb each other: distinct groups, and neither retires the other's. */
  predicate Apart(a: HookSpec, b: HookSpec) {
    a.event != b.event
    || (a.matcher != b.matcher && a.matcher !in b.supersedes && b.matcher !in a.supersedes)
  }

  predicate PairwiseApart(specs: seq<HookSpec>) {
    (forall i | 0 <= i < |specs| :: specs[i].matcher !in specs[i].supersedes)
    && forall i, j | 0 <= i < |specs| && 0 <= j < |specs| :: specs[i] == specs[j] || Apart(specs[i], specs[j])
  }

  predicate ValidSpecs(specs: seq<HookSpec>) {
    PairwiseApart(specs) && forall i | 0 <= i < |specs| :: ValidSpec(specs[i])
  }

  lemma MatchersDiffer()
    ensures LEGACY_LOOP_TIP_MATCHER != LOOP_TIP_MATCHER
    ensures forall m <- ["", "Read", "Agent", "*"] :: m != LOOP_TIP_MATCHER && m != LEGACY_LOOP_TIP_MATCHER
    ensures "Read" != "Agent"
  {
    assert |LOOP_TIP_MATCHER| > 30 && |LEGACY_LOOP_TIP_MATCHER| > 30;
    assert |LOOP_TIP_MATCHER| == |LEGACY_LOOP_TIP_MATCHER| + 5;
    assert |"Read"| == 4 && |"Agent"| == 5;
  }

  lemma EventsDiffer()
    ensures "Stop" != "PreToolUse" && "Stop" != "UserPromptSubmit" && "PreToolUse" != "UserPromptSubmit"
  {
    assert |"Stop"| == 4 && |"PreToolUse"| == 10 && |"UserPromptSubmit"| == 16;
  }

  lemma CoachSpecValid(budget: string)
    requires PlainToken(budget)
    ensures ValidSpec(CoachSpec(budget))
  {
    assert PlainToken("coach-hook") && PlainToken("--budget");
    assert HOOK_MARKERS[0] in ALL_MARKERS;
  }

  lemma ReadSpecsValid(mode: string)
    requires mode == "" || PlainToken(mode)
    ensures ValidSpec(ReadSpec(mode)) && ValidSpec(LoopTipSpec(mode))
  {
    assert PlainToken("read-guard") && PlainToken("--mode");
    assert HOOK_MARKERS[1] in ALL_MARKERS;
  }

  lemma RouteSpecsValid(provider: string)
    requires provider == "" || PlainToken(provider)
    ensures ValidSpec(RouteSpec(provider)) && ValidSpec(SubagentSpec(provider))
  {
    assert PlainToken("route-guard") && PlainToken("--provider");
    assert HOOK_MARKERS[2] in ALL_MARKERS;
  }

  lemma BoundarySpecValid(provider: string)
    ensures ValidSpec(BoundarySpec(provider))
  {
    assert PlainToken("boundary-guard") && PlainToken("--client") && PlainToken("codex");
    assert HOOK_MARKERS[3] in ALL_MARKERS;
  }

  function AllSpecs(budget: string, mode: string, provider: string): seq<HookSpec> {
    [CoachSpec(budget), ReadSpec(mode), LoopTipSpec(mode), RouteSpec(provider), SubagentSpec(provider), BoundarySpec(provider)]
  }

  lemma SameEventApart(a: HookSpec, b: HookSpec)
    requires a.matcher != b.matcher && a.matcher !in b.supersedes && b.matcher !in a.supersedes
    ensures Apart(a, b) && Apart(b, a)
  {
  }

  lemma OtherEventApart(a: HookSpec, b: HookSpec)
    requires a.event != b.event
    ensures Apart(a, b) && Apart(b, a)
  {
  }

  lemma SixApart(a: HookSpec, b: HookSpec, c: HookSpec, d: HookSpec, e: HookSpec, f: HookSpec)
    requires Apart(a, b) && Apart(a, c) && Apart(a, d) && Apart(a, e) && Apart(a, f)
    requires Apart(b, c) && Apart(b, d) && Apart(b, e) && Apart(b, f)
    requires Apart(c, d) && Apart(c, e) && Apart(c, f) && Apart(d, e) && Apart(d, f) && Apart(e, f)
    requires forall sp <- [a, b, c, d, e, f] :: sp.matcher !in sp.supersedes
    ensures PairwiseApart([a, b, c, d, e, f])
  {
    var all := [a, b, c, d, e, f];
    forall i, j | 0 <= i < 6 && 0 <= j < 6
      ensures all[i] == all[j] || Apart(all[i], all[j])
    {
      ApartSymmetric(all[i], all[j]);
      hide Apart;
    }
    assert forall i | 0 <= i < 6 :: all[i] in all;
  }

  lemma ApartSymmetric(a: HookSpec, b: HookSpec)
    ensures Apart(a, b) <==> Apart(b, a)
  {
  }

  lemma AllSpecsApart(budget: string, mode: string, provider: string)
    ensures PairwiseApart(AllSpecs(budget, mode, provider))
  {
    hide Apart, PairwiseApart;
    var a, b, c := CoachSpec(budget), ReadSpec(mode), LoopTipSpec(mode);
    var d, e, f := RouteSpec(provider), SubagentSpec(provider), BoundarySpec(provider);
    EventsDiffer();
    OtherEventApart(a, b);
    OtherEventApart(a, c);
    OtherEventApart(a, d);
    OtherEventApart(a, e);
    OtherEventApart(a, f);
    OtherEventApart(b, d);
    OtherEventApart(c, d);
    OtherEventApart(d, e);
    OtherEventApart(d, f);
    MatchersDiffer();
    SameEventApart(b, c);
    SameEventApart(b, e);
    SameEventApart(b, f);
    SameEventApart(c, e);
    SameEventApart(c, f);
    SameEventApart(e, f);
    SixApart(a, b, c, d, e, f);
  }

  lemma AllSpecsValid(budget: string, mode: string, provider: string)
    requires PlainToken(budget) && (mode == "" || PlainToken(mode)) && (provider == "" || PlainToken(provider))
    ensures forall x <- AllSpecs(budget, mode, provider) :: ValidSpec(x)
  {
    CoachSpecValid(budget);
    ReadSpecsValid(mode);
    RouteSpecsValid(provider);
    BoundarySpecValid(provider);
  }

  lemma SpecsAreAmongAll(sel: Selection, budget: string, mode: string, provider: string)
    ensures forall sp <- SpecsFor(sel, budget, mode, provider) :: sp in AllSpecs(budget, mode, provider)
    ensures SpecsFor(sel, budget, mode, provider) != []
  {
    hide CoachSpec, ReadSpec, LoopTipSpec, RouteSpec, SubagentSpec, BoundarySpec;
  }

  lemma SomeOfApart(specs: seq<HookSpec>, all: seq<HookSpec>)
    requires PairwiseApart(all) && forall sp <- specs :: sp in all
    ensures PairwiseApart(specs)
  {
    hide Apart;
    forall i, j | 0 <= i < |specs| && 0 <= j < |specs|
      ensures specs[i].matcher !in specs[i].supersedes && (specs[i] == specs[j] || Apart(specs[i], specs[j]))
    {
      assert specs[i] in specs && specs[j] in specs;
    }
  }

  /** Every selection gives specs that are well formed and cannot disturb each other. */
  lemma SpecsAreValid(sel: Selection, budget: string, mode: string, provider: string)
    requires PlainToken(budget) && (mode == "" || PlainToken(mode)) && (provider == "" || PlainToken(provider))
    ensures ValidSpecs(SpecsFor(sel, budget, mode, provider))
    ensures SpecsFor(sel, budget, mode, provider) != []
  {
    hide AllSpecs, SpecsFor, ValidSpec, PairwiseApart;
    AllSpecsValid(budget, mode, provider);
    AllSpecsApart(budget, mode, provider);
    SpecsAreAmongAll(sel, budget, mode, provider);
    var specs := SpecsFor(sel, budget, mode, provider);
    SomeOfApart(specs, AllSpecs(budget, mode, provider));
    assert forall i | 0 <= i < |specs| :: specs[i] in specs;
  }

  lemma SpecMarkers(sp: HookSpec, sel: Selection, budget: string, mode: string, provider: string)
    requires sp in SpecsFor(sel, budget, mode, provider)
    ensures var s := Effective(sel);
            (sp.marker == "coach-hook" && s.coach) || (sp.marker == "read-guard" && s.readGuard)
            || (sp.marker == "route-guard" && s.routeGuard) || (sp.marker == "boundary-guard" && s.boundary)
  {
  }

  /** An uninstall with an install's flags takes out every marker the install wired. */
  lemma UninstallCoversInstall(sel: Selection, budget: string, mode: string, provider: string)
    ensures forall sp <- SpecsFor(sel, budget, mode, provider) :: sp.marker in SelectedMarkers(sel)
  {
    forall sp | sp in SpecsFor(sel, budget, mode, provider)
      ensures sp.marker in SelectedMarkers(sel)
    {
      SpecMarkers(sp, sel, budget, mode, provider);
      assert HOOK_MARKERS[0] == "coach-hook" && HOOK_MARKERS[1] == "read-guard"
          && HOOK_MARKERS[2] == "route-guard" && HOOK_MARKERS[3] == "boundary-guard";
    }
  }

  /**
    Codex and Cursor refuse the read guard when it is asked for by name, because it
    cannot work there. The refusal looks at the flags, and the default is filled in
    after it, so exactly the install that names nothing still wires the read guard.
  */
  lemma UnsupportedReadGuardInstalledExactly(client: Client, sel: Selection, budget: string)
    requires !client.ClaudeCode? && !Refused(client, sel)
    ensures (exists sp <- SpecsFor(sel, budget, "", ProviderFor(client)) :: sp.marker == "read-guard") <==> sel.Nothing()
  {
    if sel.Nothing() {
      assert ReadSpec("") in SpecsFor(sel, budget, "", ProviderFor(client));
    }
  }

  // ----- the flags, read off one by one ------------------------------------

  /** A marker is selected exactly when its flag is given, or no flag is; there are four. */
  lemma SelectedExactly(sel: Selection)
    ensures var none := !sel.coach && !sel.readGuard && !sel.routeGuard && !sel.boundary;
            ("coach-hook" in SelectedMarkers(sel) <==> sel.coach || none)
            && ("read-guard" in SelectedMarkers(sel) <==> sel.readGuard || none)
            && ("route-guard" in SelectedMarkers(sel) <==> sel.routeGuard || none)
            && ("boundary-guard" in SelectedMarkers(sel) <==> sel.boundary || none)
    ensures forall m <- SelectedMarkers(sel) :: m in ["coach-hook", "read-guard", "route-guard", "boundary-guard"]
  {
    MarkersDiffer();
    assert HOOK_MARKERS[0] == "coach-hook" && HOOK_MARKERS[1] == "read-guard"
        && HOOK_MARKERS[2] == "route-guard" && HOOK_MARKERS[3] == "boundary-guard";
  }

  lemma MarkersDiffer()
    ensures "coach-hook" != "read-guard" && "route-guard" != "coach-hook" && "route-guard" != "read-guard"
    ensures "boundary-guard" != "coach-hook" && "boundary-guard" != "read-guard" && "boundary-guard" != "route-guard"
  {
    assert |"coach-hook"| == |"read-guard"| == 10 && "coach-hook"[0] != "read-guard"[0];
    assert |"route-guard"| == 11 && |"boundary-guard"| == 14;
  }

  /** Which selections a client refuses. */
  lemma RefusedExactly(sel: Selection)
    ensures !Refused(ClaudeCode, sel)
    ensures Refused(Codex, sel) <==> sel.readGuard
    ensures Refused(Cursor, sel) <==> sel.readGuard || sel.boundary
  {
  }

  /** The hooks an install wires, written out: where each goes, what it asks for and what it replaces. */
  predicate Wanted(client: Client, sel: Selection, budget: string, event: string, matcher: string, marker: string, args: seq<string>, supersedes: seq<string>) {
    var none := !sel.coach && !sel.readGuard && !sel.routeGuard && !sel.boundary;
    var provider := if client.ClaudeCode? then "anthropic" else if client.Codex? then "openai" else "cursor";
    || ((sel.coach || none)
        && event == "Stop" && matcher == "" && marker == "coach-hook" && args == ["coach-hook", "--budget", budget] && supersedes == [])
    || ((sel.readGuard || none)
        && event == "PreToolUse" && matcher == "Read" && marker == "read-guard" && args == ["read-guard"] && supersedes == [])
    || ((sel.readGuard || none)
        && event == "PreToolUse" && matcher == "Grep|Glob|Edit|MultiEdit|Write|NotebookEdit|Bash" && marker == "read-guard"
        && args == ["read-guard"] && supersedes == ["Grep|Glob|Edit|MultiEdit|Write|NotebookEdit"])
    || (sel.routeGuard
        && event == "UserPromptSubmit" && matcher == "" && marker == "route-guard"
        && args == ["route-guard", "--provider", provider] && supersedes == [])
    || (sel.routeGuard && client.ClaudeCode?
        && event == "PreToolUse" && matcher == "Agent" && marker == "route-guard"
        && args == ["route-guard", "--provider", "anthropic"] && supersedes == [])
    || (sel.boundary
        && event == "PreToolUse" && matcher == "*" && marker == "boundary-guard"
        && args == (if client.Codex? then ["boundary-guard", "--client", "codex"] else ["boundary-guard"]) && supersedes == [])
  }

  lemma MemberCases(sp: HookSpec, sel: Selection, budget: string, provider: string)
    ensures var s := Effective(sel);
            sp in SpecsFor(sel, budget, "", provider)
            <==> (s.coach && sp == CoachSpec(budget)) || (s.readGuard && (sp == ReadSpec("") || sp == LoopTipSpec("")))
                 || (s.routeGuard && (sp == RouteSpec(provider) || (provider == "anthropic" && sp == SubagentSpec(provider))))
                 || (s.boundary && sp == BoundarySpec(provider))
  {
    hide CoachSpec, ReadSpec, LoopTipSpec, RouteSpec, SubagentSpec, BoundarySpec;
    var s := Effective(sel);
    var a := if s.coach then [CoachSpec(budget)] else [];
    var b := if s.readGuard then [ReadSpec(""), LoopTipSpec("")] else [];
    var c := if s.routeGuard then [RouteSpec(provider)] + (if provider == "anthropic" then [SubagentSpec(provider)] else []) else [];
    var d := if s.boundary then [BoundarySpec(provider)] else [];
    assert SpecsFor(sel, budget, "", provider) == a + b + c + d;
    assert sp in a + b + c + d <==> sp in a || sp in b || sp in c || sp in d;
  }

  predicate SpecAt(sp: HookSpec, event: string, matcher: string, marker: string, args: seq<string>, supersedes: seq<string>) {
    sp.event == event && sp.matcher == matcher && sp.marker == marker && sp.args == args && sp.supersedes == supersedes
  }

  lemma ProvidersDiffer()
    ensures "anthropic" != "openai" && "anthropic" != "cursor" && "openai" != "cursor" && "anthropic" != ""
  {
    assert |"anthropic"| == 9 && |"openai"| == 6 && |"cursor"| == 6 && "openai"[0] != "cursor"[0];
  }

  lemma SpecIsWanted(client: Client, sel: Selection, budget: string, sp: HookSpec)
    requires sp in SpecsFor(sel, budget, "", ProviderFor(client))
    ensures Wanted(client, sel, budget, sp.event, sp.matcher, sp.marker, sp.args, sp.supersedes)
  {
    hide SpecsFor;
    MemberCases(sp, sel, budget, ProviderFor(client));
    ProvidersDiffer();
  }

  lemma WantedIsSpec(client: Client, sel: Selection, budget: string, event: string, matcher: string, marker: string,
      args: seq<string>, supersedes: seq<string>)
    returns (sp: HookSpec)
    requires Wanted(client, sel, budget, event, matcher, marker, args, supersedes)
    ensures sp in SpecsFor(sel, budget, "", ProviderFor(client)) && SpecAt(sp, event, matcher, marker, args, supersedes)
  {
    hide SpecsFor;
    var provider := ProviderFor(client);
    ProvidersDiffer();
    MatchersDiffer();
    EventsDiffer();
    MarkersDiffer();
    sp := if marker == "coach-hook" then CoachSpec(budget)
          else if marker == "read-guard" then (if matcher == "Read" then ReadSpec("") else LoopTipSpec(""))
          else if marker == "route-guard" then (if event == "UserPromptSubmit" then RouteSpec(provider) else SubagentSpec(provider))
          else BoundarySpec(provider);
    MemberCases(sp, sel, budget, provider);
  }

  /** Those and no others, for every client and selection. */
  lemma SpecsExactly(client: Client, sel: Selection, budget: string, event: string, matcher: string, marker: string,
      args: seq<string>, supersedes: seq<string>)
    ensures (exists sp <- SpecsFor(sel, budget, "", ProviderFor(client)) :: SpecAt(sp, event, matcher, marker, args, supersedes))
            <==> Wanted(client, sel, budget, event, matcher, marker, args, supersedes)
  {
    hide SpecsFor, Wanted;
    if sp :| sp in SpecsFor(sel, budget, "", ProviderFor(client)) && SpecAt(sp, event, matcher, marker, args, supersedes) {
      SpecIsWanted(client, sel, budget, sp);
    }
    if Wanted(client, sel, budget, event, matcher, marker, args, supersedes) {
      var sp := WantedIsSpec(client, sel, budget, event, matcher, marker, args, supersedes);
    }
  }

  lemma WordsArePlain()
    ensures PlainArg("coach-hook") && PlainArg("--budget") && PlainArg("read-guard") && PlainArg("route-guard") && PlainArg("--provider")
    ensures PlainArg("anthropic") && PlainArg("openai") && PlainArg("boundary-guard") && PlainArg("--client") && PlainArg("codex")
  {
    hide PlainArg;
    LettersArePlain("coach-hook");
    LettersArePlain("--budget");
    LettersArePlain("read-guard");
    LettersArePlain("route-guard");
    LettersArePlain("--provider");
    LettersArePlain("anthropic");
    LettersArePlain("openai");
    LettersArePlain("boundary-guard");
    LettersArePlain("--client");
    LettersArePlain("codex");
  }
}
