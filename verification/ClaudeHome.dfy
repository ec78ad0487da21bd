/**
  Where Claude Code keeps its files (internal/claudehome/claudehome.go), over a given
  directory listing: the scan from the highest precedence down, next to the merge from
  the lowest up that it stands for.
*/
module ClaudeHome {
  /** One path: a directory, or a settings file's env block. An unreadable file has an empty block. */
  datatype Entry = Directory | Settings(env: Env)

  type Env = map<string, string>

  type FileMap = map<string, Entry>

  const ENV_VAR := "CLAUDE_CONFIG_DIR"

  /** A drop-in as `filepath.Glob` and `sort.Strings` list it: the base name and the whole path. */
  datatype Drop = Drop(name: string, path: string)

  function EnvOf(files: FileMap, path: string): Env {
    if path in files && files[path].Settings? then files[path].env else map[]
  }

  /** `envValue`: empty when the file is missing or does not set the key. */
  function EnvValue(files: FileMap, path: string, key: string): string {
    if key in EnvOf(files, path) then EnvOf(files, path)[key] else ""
  }

  /** Drop-ins that count: not hidden, and there as a file. */
  predicate Visible(files: FileMap, d: Drop) {
    !(d.name != "" && d.name[0] == '.') && d.path in files && files[d.path].Settings?
  }

  /** The managed files in the order Claude Code merges them: the base file, then the drop-ins ascending. */
  function MergeOrder(files: FileMap, drops: seq<Drop>, base: string): seq<string> {
    if drops == [] then [base]
    else
      var last := drops[|drops| - 1];
      MergeOrder(files, drops[..|drops| - 1], base) + (if Visible(files, last) then [last.path] else [])
  }

  function Reversed(s: seq<string>): seq<string> {
    if s == [] then [] else [s[|s| - 1]] + Reversed(s[..|s| - 1])
  }

  /** `ManagedFiles`: the same files, highest precedence first. */
  method ManagedFiles(files: FileMap, drops: seq<Drop>, base: string) returns (out: seq<string>)
    ensures out == Reversed(MergeOrder(files, drops, base))
  {
    out := [];
    var i := |drops|;
    assert drops[..i] == drops;
    while i > 0
      invariant 0 <= i <= |drops|
      invariant out + Reversed(MergeOrder(files, drops[..i], base)) == Reversed(MergeOrder(files, drops, base))
    {
      i := i - 1;
      HighestFirst(files, drops, i, base, out);
      if drops[i].name != "" && drops[i].name[0] == '.' {
        continue;
      }
      if drops[i].path in files && files[drops[i].path].Settings? {
        out := out + [drops[i].path];
      }
    }
    assert Reversed([base]) == [base] by { assert [base][..0] == []; }
    out := out + [base];
  }

  lemma HighestFirst(files: FileMap, drops: seq<Drop>, i: nat, base: string, out: seq<string>)
    requires i < |drops|
    ensures out + Reversed(MergeOrder(files, drops[..i + 1], base))
            == (if Visible(files, drops[i]) then out + [drops[i].path] else out) + Reversed(MergeOrder(files, drops[..i], base))
  {
    assert drops[..i + 1][..i] == drops[..i];
    var rest := MergeOrder(files, drops[..i], base);
    if Visible(files, drops[i]) {
      assert (rest + [drops[i].path])[..|rest|] == rest;
    } else {
      assert MergeOrder(files, drops[..i + 1], base) == rest;
    }
  }

  /** The first non-empty value along a list of files. */
  function FirstHit(files: FileMap, paths: seq<string>, key: string): string {
    if paths == [] then ""
    else if EnvValue(files, paths[0], key) != "" then EnvValue(files, paths[0], key)
    else FirstHit(files, paths[1..], key)
  }

  function DefaultDir(home: string): string { if home == "" then ".claude" else home + "/.claude" }

  /** The directory as the layers give it, the managed files merged. */
  function ConfigDir(environment: string, files: FileMap, drops: seq<Drop>, base: string, home: string): string {
    if environment != "" then environment
    else if Managed(files, drops, base) != "" then Managed(files, drops, base)
    else if EnvValue(files, DefaultDir(home) + "/settings.json", ENV_VAR) != ""
    then EnvValue(files, DefaultDir(home) + "/settings.json", ENV_VAR)
    else DefaultDir(home)
  }

  /** `Resolve`, with the environment's value and the drop-in listing passed in. */
  method Resolve(environment: string, files: FileMap, drops: seq<Drop>, base: string, home: string) returns (dir: string)
    ensures dir == ConfigDir(environment, files, drops, base, home)
  {
    if environment != "" {
      return environment;
    }
    var managed := ManagedFiles(files, drops, base);
    ScanIsMerge(files, MergeOrder(files, drops, base), ENV_VAR);
    assert managed[0..] == managed;
    for i := 0 to |managed|
      invariant FirstHit(files, managed[i..], ENV_VAR) == FirstHit(files, managed, ENV_VAR)
    {
      assert managed[i..][0] == managed[i] && managed[i..][1..] == managed[i + 1..];
      var d := EnvValue(files, managed[i], ENV_VAR);
      if d != "" {
        return d;
      }
    }
    assert managed[|managed|..] == [];
    var def := DefaultDir(home);
    var d := EnvValue(files, def + "/settings.json", ENV_VAR);
    if d != "" {
      return d;
    }
    return def;
  }

  // ----- the merge ---------------------------------------------------------

  /** The non-empty entries of one file. */
  function Layer(files: FileMap, path: string): Env {
    var env := EnvOf(files, path);
    map key | key in env && env[key] != "" :: env[key]
  }

  /** Files merged in order, each overriding the ones before it, empty values left out. */
  function Merged(files: FileMap, order: seq<string>): Env {
    if order == [] then map[] else Merged(files, order[..|order| - 1]) + Layer(files, order[|order| - 1])
  }

  /** What the merged managed settings say of the variable. */
  function Managed(files: FileMap, drops: seq<Drop>, base: string): string {
    var env := Merged(files, MergeOrder(files, drops, base));
    if ENV_VAR in env then env[ENV_VAR] else ""
  }

  /** The early-exit scan from the top finds what the merge from the bottom leaves, for every key. */
  lemma {:induction false} ScanIsMerge(files: FileMap, order: seq<string>, key: string)
    ensures var env := Merged(files, order);
            FirstHit(files, Reversed(order), key) == if key in env then env[key] else ""
    ensures key in Merged(files, order) ==> Merged(files, order)[key] != ""
  {
    if order != [] {
      var front, last := order[..|order| - 1], order[|order| - 1];
      ScanIsMerge(files, front, key);
      assert Reversed(order)[1..] == Reversed(front);
    }
  }

  /** The plain merge, in which an explicit empty value overrides too. */
  function PlainMerged(files: FileMap, order: seq<string>): Env {
    if order == [] then map[] else PlainMerged(files, order[..|order| - 1]) + EnvOf(files, order[|order| - 1])
  }

  /** The last file that sets the key sets it to something. */
  predicate LastSetterIsNotEmpty(files: FileMap, order: seq<string>, key: string) {
    order != [] &&
    var last := EnvOf(files, order[|order| - 1]);
    if key in last then last[key] != "" else LastSetterIsNotEmpty(files, order[..|order| - 1], key)
  }

  predicate SetSomewhere(files: FileMap, order: seq<string>, key: string) {
    exists p <- order :: EnvValue(files, p, key) != ""
  }

  lemma {:induction false} ScanFindsSomething(files: FileMap, order: seq<string>, key: string)
    ensures FirstHit(files, Reversed(order), key) != "" <==> SetSomewhere(files, order, key)
  {
    if order != [] {
      var front, last := order[..|order| - 1], order[|order| - 1];
      ScanFindsSomething(files, front, key);
      assert Reversed(order)[1..] == Reversed(front);
      assert last in order && (forall p <- front :: p in order) && forall p <- order :: p in front || p == last;
    }
  }

  /**
    A later file overrides an earlier one, except with an empty value: the scan gives the plain
    merge's value exactly when the last file to set the key sets it to something, or no file does.
  */
  lemma {:induction false} ScanIsPlainMergeExactly(files: FileMap, order: seq<string>, key: string)
    ensures var env := PlainMerged(files, order);
            FirstHit(files, Reversed(order), key) == (if key in env then env[key] else "")
            <==> LastSetterIsNotEmpty(files, order, key) || !SetSomewhere(files, order, key)
    ensures LastSetterIsNotEmpty(files, order, key) ==>
              key in PlainMerged(files, order) && PlainMerged(files, order)[key] != ""
    ensures !LastSetterIsNotEmpty(files, order, key) ==>
              key !in PlainMerged(files, order) || PlainMerged(files, order)[key] == ""
  {
    ScanFindsSomething(files, order, key);
    if order != [] {
      var front, last := order[..|order| - 1], order[|order| - 1];
      ScanIsPlainMergeExactly(files, front, key);
      ScanFindsSomething(files, front, key);
      assert Reversed(order)[1..] == Reversed(front);
      assert last in order && (forall p <- front :: p in order) && forall p <- order :: p in front || p == last;
    }
  }

  /** They part where a drop-in empties what the base file set: the scan still finds the base's value. */
  lemma EmptyValueIsSkipped(key: string, value: string, base: string, drop: string)
    requires value != "" && base != drop
    ensures var files: FileMap := map[base := Settings(map[key := value]), drop := Settings(map[key := ""])];
            var order := [base, drop];
            FirstHit(files, Reversed(order), key) == value && key in PlainMerged(files, order) && PlainMerged(files, order)[key] == ""
  {
    var files: FileMap := map[base := Settings(map[key := value]), drop := Settings(map[key := ""])];
    var order := [base, drop];
    assert order[..1] == [base] && [base][..0] == [];
    assert order[1] == drop && Reversed([base]) == [base];
    assert Reversed(order) == [drop] + [base];
    assert PlainMerged(files, order) == PlainMerged(files, [base]) + EnvOf(files, drop);
  }

  // ----- which file decides ------------------------------------------------

  /** A drop-in that is there as a file and whose name does not begin with a dot. */
  predicate There(files: FileMap, d: Drop) {
    d.path in files && files[d.path].Settings? && (d.name == "" || d.name[0] != '.')
  }

  /** The paths of some drop-ins, with the base file at the end. */
  function PathsThenBase(drops: seq<Drop>, picks: seq<nat>, base: string): seq<string>
    requires forall j | 0 <= j < |picks| :: picks[j] < |drops|
  {
    if picks == [] then [base] else [drops[picks[0]].path] + PathsThenBase(drops, picks[1..], base)
  }

  /** The drop-ins that are there, the last first. */
  function Picks(files: FileMap, drops: seq<Drop>): (picks: seq<nat>)
    ensures forall j | 0 <= j < |picks| :: picks[j] < |drops|
  {
    if drops == [] then []
    else (if There(files, drops[|drops| - 1]) then [|drops| - 1] else []) + Picks(files, drops[..|drops| - 1])
  }

  predicate AllThere(files: FileMap, drops: seq<Drop>, picks: seq<nat>) {
    forall j | 0 <= j < |picks| :: picks[j] < |drops| && There(files, drops[picks[j]])
  }

  predicate Falling(picks: seq<nat>) { forall j, k | 0 <= j < k < |picks| :: picks[j] > picks[k] }

  predicate Complete(files: FileMap, drops: seq<Drop>, picks: seq<nat>) {
    forall i | 0 <= i < |drops| && There(files, drops[i]) :: i in picks
  }

  lemma {:induction false} PicksAreThere(files: FileMap, drops: seq<Drop>)
    ensures AllThere(files, drops, Picks(files, drops)) && Falling(Picks(files, drops)) && Complete(files, drops, Picks(files, drops))
  {
    hide There, AllThere, Falling, Complete;
    if drops == [] {
      NoPicks(files);
    } else {
      var n := |drops| - 1;
      PicksAreThere(files, drops[..n]);
      OneMorePick(files, drops, Picks(files, drops[..n]));
    }
  }

  lemma NoPicks(files: FileMap)
    ensures AllThere(files, [], []) && Falling([]) && Complete(files, [], [])
  {
  }

  lemma OneMorePick(files: FileMap, drops: seq<Drop>, rest: seq<nat>)
    requires drops != []
    requires var front := drops[..|drops| - 1]; AllThere(files, front, rest) && Falling(rest) && Complete(files, front, rest)
    ensures var picks: seq<nat> := (if There(files, drops[|drops| - 1]) then [|drops| - 1] else []) + rest;
            AllThere(files, drops, picks) && Falling(picks) && Complete(files, drops, picks)
  {
    hide There;
    var n := |drops| - 1;
    assert forall i | 0 <= i < n :: drops[..n][i] == drops[i];
    assert Complete(files, drops, (if There(files, drops[n]) then [n] else []) + rest) by {
      forall i | 0 <= i < n && There(files, drops[i])
        ensures i in rest
      {
        assert There(files, drops[..n][i]);
      }
    }
  }

  lemma NextListed(files: FileMap, drops: seq<Drop>, base: string)
    requires drops != []
    ensures var n := |drops| - 1;
            Reversed(MergeOrder(files, drops, base))
            == (if There(files, drops[n]) then [drops[n].path] else []) + Reversed(MergeOrder(files, drops[..n], base))
  {
    hide Reversed;
    var n := |drops| - 1;
    HighestFirst(files, drops, n, base, []);
    assert drops[..n + 1] == drops;
    var all, lower := Reversed(MergeOrder(files, drops, base)), Reversed(MergeOrder(files, drops[..n], base));
    assert [] + all == all && [] + lower == lower && [] + [drops[n].path] == [drops[n].path];
  }

  lemma NextPicked(files: FileMap, drops: seq<Drop>, base: string)
    requires drops != []
    ensures var n := |drops| - 1;
            PathsThenBase(drops, Picks(files, drops), base)
            == (if There(files, drops[n]) then [drops[n].path] else []) + PathsThenBase(drops[..n], Picks(files, drops[..n]), base)
  {
    hide There;
    var n := |drops| - 1;
    var rest := Picks(files, drops[..n]);
    SamePaths(drops, n, rest, base);
    if There(files, drops[n]) {
      assert Picks(files, drops) == [n] + rest && ([n] + rest)[1..] == rest;
    } else {
      assert Picks(files, drops) == [] + rest == rest;
    }
  }

  lemma {:induction false} PicksAreListed(files: FileMap, drops: seq<Drop>, base: string)
    ensures Reversed(MergeOrder(files, drops, base)) == PathsThenBase(drops, Picks(files, drops), base)
  {
    if drops == [] {
      assert [base][..0] == [];
    } else {
      hide Reversed, MergeOrder, PathsThenBase, Picks, There;
      PicksAreListed(files, drops[..|drops| - 1], base);
      NextListed(files, drops, base);
      NextPicked(files, drops, base);
    }
  }

  /**
    `ManagedFiles` lists exactly the drop-ins that are there, from the last in the listing to the first,
    and after them the base file, there or not.
  */
  lemma ManagedFilesExactly(files: FileMap, drops: seq<Drop>, base: string)
    ensures exists picks: seq<nat> ::
              AllThere(files, drops, picks) && Falling(picks) && Complete(files, drops, picks)
              && Reversed(MergeOrder(files, drops, base)) == PathsThenBase(drops, picks, base)
  {
    hide There, Reversed, MergeOrder, PathsThenBase;
    PicksAreThere(files, drops);
    PicksAreListed(files, drops, base);
    var picks := Picks(files, drops);
    assert Reversed(MergeOrder(files, drops, base)) == PathsThenBase(drops, picks, base);
  }

  lemma {:induction false} SamePaths(drops: seq<Drop>, n: nat, picks: seq<nat>, base: string)
    requires n <= |drops| && forall j | 0 <= j < |picks| :: picks[j] < n
    ensures PathsThenBase(drops[..n], picks, base) == PathsThenBase(drops, picks, base)
    decreases picks
  {
    if picks != [] {
      SamePaths(drops, n, picks[1..], base);
    }
  }

  /** The variable's value in a settings file: empty where the file or the key is not there. */
  function ValueIn(files: FileMap, path: string): string {
    if path in files && files[path].Settings? && "CLAUDE_CONFIG_DIR" in files[path].env then files[path].env["CLAUDE_CONFIG_DIR"] else ""
  }

  /** The last drop-in that is there and sets the variable to something. */
  predicate Decides(files: FileMap, drops: seq<Drop>, i: nat) {
    i < |drops| && There(files, drops[i]) && ValueIn(files, drops[i].path) != ""
    && forall j | i < j < |drops| && There(files, drops[j]) :: ValueIn(files, drops[j].path) == ""
  }

  lemma LastMerged(files: FileMap, drops: seq<Drop>, base: string)
    requires drops != []
    ensures var n := |drops| - 1;
            var last := ValueIn(files, drops[n].path);
            Managed(files, drops, base) == if There(files, drops[n]) && last != "" then last else Managed(files, drops[..n], base)
  {
    var n := |drops| - 1;
    var front := MergeOrder(files, drops[..n], base);
    if There(files, drops[n]) {
      assert (front + [drops[n].path])[..|front|] == front;
    } else {
      assert MergeOrder(files, drops, base) == front;
    }
  }

  lemma {:induction false} ManagedIsDecided(files: FileMap, drops: seq<Drop>, base: string)
    ensures forall i: nat | Decides(files, drops, i) :: Managed(files, drops, base) == ValueIn(files, drops[i].path)
    ensures (forall i: nat :: !Decides(files, drops, i)) ==> Managed(files, drops, base) == ValueIn(files, base)
    decreases drops
  {
    if drops == [] {
      assert [base][..0] == [] && Merged(files, []) == map[];
    } else {
      var n := |drops| - 1;
      var front := drops[..n];
      ManagedIsDecided(files, front, base);
      LastMerged(files, drops, base);
      hide Managed, There, ValueIn, Decides;
      var last := There(files, drops[n]) && ValueIn(files, drops[n].path) != "";
      forall i: nat | Decides(files, drops, i)
        ensures i < |drops| && Managed(files, drops, base) == ValueIn(files, drops[i].path)
      {
        LastDecides(files, drops, i);
        if !last {
          DeciderBelow(files, drops, i);
        }
      }
      if forall i: nat :: !Decides(files, drops, i) {
        LastDecides(files, drops, n);
        forall i: nat
          ensures !Decides(files, front, i)
        {
          LastDecides(files, drops, i);
        }
      }
    }
  }

  lemma DeciderBelow(files: FileMap, drops: seq<Drop>, i: nat)
    requires drops != [] && Decides(files, drops[..|drops| - 1], i)
    ensures i < |drops| - 1 && drops[..|drops| - 1][i] == drops[i]
  {
    hide There, ValueIn;
  }

  /** The last drop-in decides if it can, and otherwise whichever did without it. */
  lemma LastDecides(files: FileMap, drops: seq<Drop>, i: nat)
    requires drops != []
    ensures var n := |drops| - 1;
            Decides(files, drops, i)
            <==> if There(files, drops[n]) && ValueIn(files, drops[n].path) != "" then i == n else Decides(files, drops[..n], i)
  {
    hide There, ValueIn;
    assert forall j | 0 <= j < |drops| - 1 :: drops[..|drops| - 1][j] == drops[j];
  }

  /**
    `Resolve` by the files alone: the environment's value if there is one; else that of the last drop-in
    that is there and sets the variable, else the base file's, else the user's settings.json's, and else the
    directory itself, which is .claude under home, or relative where home is not known.
  */
  lemma ResolvesTo(environment: string, files: FileMap, drops: seq<Drop>, base: string, home: string)
    ensures var dir := ConfigDir(environment, files, drops, base, home);
            var def := if home == "" then ".claude" else home + "/.claude";
            var user := ValueIn(files, def + "/settings.json");
            (environment != "" ==> dir == environment)
            && (environment == "" ==>
                  (forall i: nat | Decides(files, drops, i) :: dir == ValueIn(files, drops[i].path))
                  && ((forall i: nat :: !Decides(files, drops, i)) ==>
                        dir == if ValueIn(files, base) != "" then ValueIn(files, base) else if user != "" then user else def))
  {
    ManagedIsDecided(files, drops, base);
    UserIsRead(files, home);
    hide Managed, EnvValue, ValueIn, DefaultDir, There;
    forall i: nat | Decides(files, drops, i)
      ensures environment == "" ==> ConfigDir(environment, files, drops, base, home) == ValueIn(files, drops[i].path)
    {
      DeciderIsNotEmpty(files, drops, i);
    }
  }

  lemma DeciderIsNotEmpty(files: FileMap, drops: seq<Drop>, i: nat)
    requires Decides(files, drops, i)
    ensures i < |drops| && ValueIn(files, drops[i].path) != ""
  {
  }

  lemma UserIsRead(files: FileMap, home: string)
    ensures DefaultDir(home) == if home == "" then ".claude" else home + "/.claude"
    ensures EnvValue(files, DefaultDir(home) + "/settings.json", ENV_VAR) == ValueIn(files, DefaultDir(home) + "/settings.json")
  {
  }
}
