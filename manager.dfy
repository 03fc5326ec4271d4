/**
 * The commands of the rules manager: `list-rules`, `install`, `sync`,
 * `clean-rules` and `clean-all`. The tool's own `rule_sets` and
 * `memory_starters` directories are fixed; each target repository is a
 * directory tree found under its (sanitised) path, in which the tool
 * manages `project_rules/`, `memory/` and `.cursor/rules/`.
 */
module Manager {
  import opened Wrappers
  import opened Text
  import opened Sorting
  import opened FileTree
  import opened Arguments
  import opened Numbering
  import opened MemoryStarters

  const ProjectRules := "project_rules"
  const Memory := "memory"
  const CursorDir := ".cursor"
  const Rules := "rules"

  // ---------------------------------------------------------------------
  // Looking into a repository

  /** The directory at entry `name` of `t`, if `t` has a directory there. */
  function SubDir(t: Tree, name: string): Option<Tree> {
    if name in t && t[name].Dir? then Some(t[name].children) else None
  }

  /** `os.path.exists(".cursor/rules")` inside a repository. */
  predicate HasCursorRules(repo: Tree) {
    CursorDir in repo && repo[CursorDir].Dir? && Rules in repo[CursorDir].children
  }

  /** The directory `.cursor/rules` of a repository, if there is one. */
  function CursorRules(repo: Tree): Option<Tree> {
    match SubDir(repo, CursorDir)
    case None => None
    case Some(c) => SubDir(c, Rules)
  }

  /** The managed places that exist are directories: a plain file at
      `project_rules`, `memory`, `.cursor` or `.cursor/rules` makes the
      commands raise instead of returning. */
  predicate Managed(repo: Tree) {
    && (ProjectRules in repo ==> repo[ProjectRules].Dir?)
    && (Memory in repo ==> repo[Memory].Dir?)
    && (CursorDir in repo ==> repo[CursorDir].Dir?)
    && (HasCursorRules(repo) ==> repo[CursorDir].children[Rules].Dir?)
  }

  /** The entries of `.cursor` other than `rules`, such as `mcp.json`:
      the tool only ever replaces or removes `rules` inside `.cursor`. */
  function CursorOthers(repo: Tree): Tree {
    SubDir(repo, CursorDir).GetOr(map[]) - {Rules}
  }

  predicate ValidRepo(repo: Tree) {
    ValidNode(Dir(repo)) && Managed(repo)
  }

  predicate AllValid(repos: map<string, Tree>) {
    forall p :: p in repos ==> ValidRepo(repos[p])
  }

  /** A repository path that does not exist yet reads as an empty one. */
  function RepoAt(repos: map<string, Tree>, path: string): Tree {
    if path in repos then repos[path] else map[]
  }

  // ---------------------------------------------------------------------
  // Changing a repository

  /** `.cursor/rules` replaced by `rules`, with `.cursor` created when
      absent and its other entries kept. */
  function WithCursorRules(repo: Tree, rules: Tree): (r: Tree)
    ensures r.Keys == repo.Keys + {CursorDir}
    ensures forall n :: n in repo && n != CursorDir ==> r[n] == repo[n]
    ensures CursorRules(r) == Some(rules)
    ensures CursorOthers(r) == CursorOthers(repo)
  {
    var cursor := SubDir(repo, CursorDir).GetOr(map[]);
    repo[CursorDir := Dir(cursor[Rules := Dir(rules)])]
  }

  /** `.cursor/rules` removed, if there is one; `.cursor` itself stays. */
  function WithoutCursorRules(repo: Tree): (r: Tree)
    ensures r.Keys == repo.Keys
    ensures forall n :: n in repo && n != CursorDir ==> r[n] == repo[n]
    ensures !HasCursorRules(r)
    ensures CursorOthers(r) == CursorOthers(repo)
    ensures SubDir(r, CursorDir).Some? <==> SubDir(repo, CursorDir).Some?
    ensures CursorDir in repo && repo[CursorDir].File? ==> r[CursorDir] == repo[CursorDir]
  {
    if HasCursorRules(repo) then repo[CursorDir := Dir(repo[CursorDir].children - {Rules})] else repo
  }

  /** The entry `name` set to the directory `d`, when there is one. */
  function WithEntry(repo: Tree, name: string, d: Option<Tree>): Tree {
    if d.None? then repo else repo[name := Dir(d.value)]
  }

  // ---------------------------------------------------------------------
  // The commands, on values

  /** A rule-set name the model covers: one plain entry of the rule-sets
      directory, or the empty name. */
  predicate PlainName(name: string) {
    '/' !in name && name != "." && name != ".."
  }

  /** `os.path.join(SOURCE_RULE_SETS_DIR, name)` when it exists: the empty
      name joins to the rule-sets directory itself. */
  function RuleSetSource(ruleSets: Option<Tree>, name: string): (r: Option<Node>)
    requires PlainName(name)
    ensures r.Some? <==> ruleSets.Some? && (name == "" || name in ruleSets.value)
  {
    if ruleSets.None? then None
    else if name == "" then Some(Dir(ruleSets.value))
    else if name in ruleSets.value then Some(ruleSets.value[name])
    else None
  }

  /** The numbered `.mdc` copies of the `.md` files below `source`, in a
      fresh directory. */
  ghost function Renumbered(source: Node): Tree {
    Numbered(Some(source), Some(map[]), AddMdc).value
  }

  /** A repository with `project_rules`, `memory` and `.cursor/rules`
      given. */
  function Laid(repo: Tree, rules: Tree, memory: Option<Tree>, cursorRules: Tree): Tree {
    WithCursorRules(WithEntry(repo[ProjectRules := Dir(rules)], Memory, memory), cursorRules)
  }

  /** What a successful `install` leaves in the repository: `project_rules`
      holds the numbered `.mdc` copies of the rule set, `memory` has
      received the missing starters, and `.cursor/rules` holds the
      numbering of `project_rules` (lines 133-158). */
  ghost function Installed(repo: Tree, ruleSet: Node, starters: Option<Tree>): Tree {
    var rules := Renumbered(ruleSet);
    Laid(repo, rules, MemoryAfterCopy(starters, SubDir(repo, Memory)), Renumbered(Dir(rules)))
  }

  /** What `sync` leaves in the repository, or `None` when it has no
      `project_rules` and the command fails (lines 180-197). */
  ghost function Synced(repo: Tree): Option<Tree> {
    if ProjectRules !in repo then None
    else Some(WithCursorRules(repo, Renumbered(repo[ProjectRules])))
  }

  /** What `clean-rules` leaves in the repository, and whether it removed
      anything (lines 210-225). */
  function RulesCleaned(repo: Tree): (Tree, bool) {
    (WithoutCursorRules(repo - {ProjectRules}), ProjectRules in repo || HasCursorRules(repo))
  }

  /** What `clean-all` leaves in the repository, and whether it removed
      anything; any answer but `y` cancels (lines 242-270). */
  function AllCleaned(repo: Tree, answer: string): (Tree, bool) {
    if !Confirmed(answer) then (repo, false) else ManagedRemoved(repo)
  }

  /** The repository without `project_rules`, `memory` and `.cursor/rules`,
      and whether any of them existed. */
  function ManagedRemoved(repo: Tree): (Tree, bool) {
    (WithoutCursorRules(repo - {ProjectRules, Memory}),
     ProjectRules in repo || HasCursorRules(repo) || Memory in repo)
  }

  /** The names `list-rules` prints, in order (lines 39-47). */
  function Self(s: string): string {
    s
  }

  function RuleSetNames(ruleSets: Tree): set<string> {
    set n | n in ruleSets && ruleSets[n].Dir?
  }

  ghost function RuleSetListing(ruleSets: Option<Tree>): seq<string> {
    if ruleSets.None? then [] else SortBy(SetToSeq(RuleSetNames(ruleSets.value)), Self)
  }

  // ---------------------------------------------------------------------
  // Properties of the commands

  /** The listing names every rule-set directory once, in strictly
      ascending order. */
  lemma RuleSetListingSpec(ruleSets: Tree)
    ensures var l := RuleSetListing(Some(ruleSets));
      && (forall n :: n in l <==> n in ruleSets && ruleSets[n].Dir?)
      && |l| == |RuleSetNames(ruleSets)|
      && StrictlySortedBy(l, Self)
  {
    var l := RuleSetListing(Some(ruleSets));
    var names := RuleSetNames(ruleSets);
    assert multiset(l) == multiset(names);
    forall n
      ensures n in l <==> n in names
    {
      assert n in l <==> n in multiset(l);
    }
    assert |l| == |multiset(l)| == |multiset(names)| == |names|;
    SortedStrictly(l, Self);
  }

  /** One numbered copy per `.md` file, under valid names. */
  lemma RenumberedSpec(source: Node)
    requires ValidNode(source)
    ensures |Renumbered(source)| == |MdFiles(source)|
    ensures ValidNode(Dir(Renumbered(source)))
  {
    NumberedDirectory(source, AddMdc);
  }

  /** A fresh numbering of `.mdc` copies collects nothing. */
  lemma RenumberedMdcIsEmpty(source: Node)
    requires ValidNode(source)
    ensures Renumbered(Dir(Renumbered(source))) == map[]
  {
    ListingSpec(source);
    MdcCopiesNotCollected(Listing(source));
  }

  /** Where each managed piece of a laid-out repository is, and that
      nothing else changed. */
  lemma LaidSpec(repo: Tree, rules: Tree, memory: Option<Tree>, cursorRules: Tree)
    ensures var r := Laid(repo, rules, memory, cursorRules);
      && SubDir(r, ProjectRules) == Some(rules)
      && CursorRules(r) == Some(cursorRules)
      && SubDir(r, Memory) == (if memory.Some? then memory else SubDir(repo, Memory))
      && r.Keys == repo.Keys + {ProjectRules, CursorDir} + (if memory.Some? then {Memory} else {})
      && (forall n :: n in repo && n != ProjectRules && (n != Memory || memory.None?) && n != CursorDir ==> n in r && r[n] == repo[n])
      && CursorOthers(r) == CursorOthers(repo)
  {
  }

  lemma LaidValid(repo: Tree, rules: Tree, memory: Option<Tree>, cursorRules: Tree)
    requires ValidRepo(repo) && ValidNode(Dir(rules)) && ValidNode(Dir(cursorRules))
    requires memory.Some? ==> ValidNode(Dir(memory.value))
    ensures ValidRepo(Laid(repo, rules, memory, cursorRules))
  {
    var r1 := WithEntry(repo[ProjectRules := Dir(rules)], Memory, memory);
    assert ValidRepo(r1);
    WithCursorRulesValid(r1, cursorRules);
  }

  lemma WithCursorRulesValid(repo: Tree, rules: Tree)
    requires ValidRepo(repo) && ValidNode(Dir(rules))
    ensures ValidRepo(WithCursorRules(repo, rules))
  {
    var cursor := SubDir(repo, CursorDir).GetOr(map[]);
    assert ValidNode(Dir(cursor));
    assert ValidNode(Dir(cursor[Rules := Dir(rules)]));
  }


  /** After `install`: `project_rules` holds one numbered copy per `.md`
      file of the rule set, `.cursor/rules` exists and is empty (the copies
      are `.mdc` files, which the second numbering does not collect),
      `memory` has received the starters when there are any, and every
      other entry of the repository is as it was. */
  lemma InstalledLayout(repo: Tree, ruleSet: Node, starters: Option<Tree>)
    requires ValidNode(ruleSet)
    ensures var r := Installed(repo, ruleSet, starters);
      && SubDir(r, ProjectRules) == Some(Renumbered(ruleSet))
      && |Renumbered(ruleSet)| == |MdFiles(ruleSet)|
      && CursorRules(r) == Some(map[])
      && SubDir(r, Memory) == MemoryAfterCopy(starters, SubDir(repo, Memory))
      && r.Keys == repo.Keys + {ProjectRules, CursorDir}
                  + (if MemoryAfterCopy(starters, SubDir(repo, Memory)).Some? then {Memory} else {})
      && (forall n ::
            n in repo && n != ProjectRules && n != CursorDir && (n != Memory || MemoryAfterCopy(starters, SubDir(repo, Memory)).None?)
            ==> n in r && r[n] == repo[n])
      && CursorOthers(r) == CursorOthers(repo)
  {
    var rules := Renumbered(ruleSet);
    var memory := MemoryAfterCopy(starters, SubDir(repo, Memory));
    RenumberedSpec(ruleSet);
    RenumberedMdcIsEmpty(ruleSet);
    LaidSpec(repo, rules, memory, Renumbered(Dir(rules)));
  }

  /** `install` keeps a repository well formed. */
  lemma InstalledValid(repo: Tree, ruleSet: Node, starters: Option<Tree>)
    requires ValidRepo(repo) && ValidNode(ruleSet)
    requires starters.Some? ==> ValidNode(Dir(starters.value))
    ensures ValidRepo(Installed(repo, ruleSet, starters))
  {
    var rules := Renumbered(ruleSet);
    RenumberedSpec(ruleSet);
    RenumberedMdcIsEmpty(ruleSet);
    var memory := MemoryAfterCopy(starters, SubDir(repo, Memory));
    if starters.Some? {
      MergedValid(SubDir(repo, Memory).GetOr(map[]), starters.value);
    }
    LaidValid(repo, rules, memory, Renumbered(Dir(rules)));
  }

  /** Laying out the same pieces again changes nothing, provided the memory
      piece is what it would be computed from the laid-out repository. */
  lemma LaidTwice(repo: Tree, rules: Tree, memory: Option<Tree>, memory': Option<Tree>, cursorRules: Tree)
    requires memory' == (if memory.Some? then memory else SubDir(repo, Memory))
    ensures Laid(Laid(repo, rules, memory, cursorRules), rules, memory', cursorRules) == Laid(repo, rules, memory, cursorRules)
  {
    var r1 := WithEntry(repo[ProjectRules := Dir(rules)], Memory, memory);
    var cursor := SubDir(r1, CursorDir).GetOr(map[]);
    var once := Laid(repo, rules, memory, cursorRules);
    var r2 := WithEntry(once[ProjectRules := Dir(rules)], Memory, memory');
    assert SubDir(r2, CursorDir) == Some(cursor[Rules := Dir(cursorRules)]);
    assert cursor[Rules := Dir(cursorRules)][Rules := Dir(cursorRules)] == cursor[Rules := Dir(cursorRules)];
    var twice := Laid(once, rules, memory', cursorRules);
    assert twice.Keys == once.Keys;
  }

  /** Installing the same rule set twice leaves what installing once
      leaves. */
  lemma InstallIdempotent(repo: Tree, ruleSet: Node, starters: Option<Tree>)
    ensures Installed(Installed(repo, ruleSet, starters), ruleSet, starters) == Installed(repo, ruleSet, starters)
  {
    var rules := Renumbered(ruleSet);
    var memory := MemoryAfterCopy(starters, SubDir(repo, Memory));
    var cursorRules := Renumbered(Dir(rules));
    var once := Laid(repo, rules, memory, cursorRules);
    LaidSpec(repo, rules, memory, cursorRules);
    CopyIdempotent(starters, SubDir(repo, Memory));
    LaidTwice(repo, rules, memory, MemoryAfterCopy(starters, SubDir(once, Memory)), cursorRules);
  }

  /** `sync` fails exactly when the repository has no `project_rules`. */
  lemma SyncNeedsProjectRules(repo: Tree)
    ensures Synced(repo).None? <==> ProjectRules !in repo
  {
  }

  /** A successful `sync` replaces `.cursor/rules` by the numbering of
      `project_rules` and changes nothing outside `.cursor`. */
  lemma SyncedLayout(repo: Tree)
    requires ProjectRules in repo
    ensures var r := Synced(repo).value;
      && CursorRules(r) == Some(Renumbered(repo[ProjectRules]))
      && r.Keys == repo.Keys + {CursorDir}
      && (forall n :: n in repo && n != CursorDir ==> r[n] == repo[n])
      && CursorOthers(r) == CursorOthers(repo)
  {
  }

  /** Replacing `.cursor/rules` twice keeps only the second. */
  lemma WithCursorRulesTwice(repo: Tree, a: Tree, b: Tree)
    ensures WithCursorRules(WithCursorRules(repo, a), b) == WithCursorRules(repo, b)
  {
    var once := WithCursorRules(repo, a);
    assert SubDir(once, CursorDir).GetOr(map[])[Rules := Dir(b)] == SubDir(repo, CursorDir).GetOr(map[])[Rules := Dir(b)];
  }

  /** Two syncs in a row leave what one leaves. */
  lemma SyncIdempotent(repo: Tree)
    requires Synced(repo).Some?
    ensures Synced(Synced(repo).value) == Synced(repo)
  {
    var rules := Renumbered(repo[ProjectRules]);
    WithCursorRulesTwice(repo, rules, rules);
  }

  /** Right after `install`, `sync` changes nothing. */
  lemma SyncAfterInstall(repo: Tree, ruleSet: Node, starters: Option<Tree>)
    ensures Synced(Installed(repo, ruleSet, starters)) == Some(Installed(repo, ruleSet, starters))
  {
    var rules := Renumbered(ruleSet);
    var memory := MemoryAfterCopy(starters, SubDir(repo, Memory));
    var cursorRules := Renumbered(Dir(rules));
    var r1 := WithEntry(repo[ProjectRules := Dir(rules)], Memory, memory);
    assert Laid(repo, rules, memory, cursorRules)[ProjectRules] == Dir(rules);
    WithCursorRulesTwice(r1, cursorRules, cursorRules);
  }


  /** `clean-rules` removes `project_rules` and `.cursor/rules` and nothing
      else, keeping `memory` and `.cursor`; it reports a removal exactly
      when one of the two existed. */
  lemma RulesCleanedLayout(repo: Tree)
    ensures var (r, cleaned) := RulesCleaned(repo);
      && ProjectRules !in r && !HasCursorRules(r)
      && r.Keys == repo.Keys - {ProjectRules}
      && (forall n :: n in repo && n != ProjectRules && n != CursorDir ==> r[n] == repo[n])
      && CursorOthers(r) == CursorOthers(repo)
      && (SubDir(r, CursorDir).Some? <==> SubDir(repo, CursorDir).Some?)
      && (CursorDir in repo && repo[CursorDir].File? ==> r[CursorDir] == repo[CursorDir])
      && (cleaned <==> ProjectRules in repo || HasCursorRules(repo))
  {
  }

  /** A second `clean-rules` finds nothing to remove. */
  lemma CleanRulesIdempotent(repo: Tree)
    ensures RulesCleaned(RulesCleaned(repo).0) == (RulesCleaned(repo).0, false)
  {
    var r := RulesCleaned(repo).0;
    assert r - {ProjectRules} == r;
  }

  /** `clean-rules` after `install` keeps the memory the install set up. */
  lemma CleanAfterInstallKeepsMemory(repo: Tree, ruleSet: Node, starters: Option<Tree>)
    ensures SubDir(RulesCleaned(Installed(repo, ruleSet, starters)).0, Memory) == MemoryAfterCopy(starters, SubDir(repo, Memory))
  {
    var rules := Renumbered(ruleSet);
    var memory := MemoryAfterCopy(starters, SubDir(repo, Memory));
    LaidSpec(repo, rules, memory, Renumbered(Dir(rules)));
  }

  /** Declining the confirmation changes nothing. */
  lemma CleanAllDeclined(repo: Tree, answer: string)
    requires !Confirmed(answer)
    ensures AllCleaned(repo, answer) == (repo, false)
  {
  }

  /** A confirmed `clean-all` removes `project_rules`, `memory` and
      `.cursor/rules` and nothing else. */
  lemma AllCleanedLayout(repo: Tree, answer: string)
    requires Confirmed(answer)
    ensures var (r, cleaned) := AllCleaned(repo, answer);
      && ProjectRules !in r && Memory !in r && !HasCursorRules(r)
      && r.Keys == repo.Keys - {ProjectRules, Memory}
      && (forall n :: n in repo && n != ProjectRules && n != Memory && n != CursorDir ==> r[n] == repo[n])
      && CursorOthers(r) == CursorOthers(repo)
      && (SubDir(r, CursorDir).Some? <==> SubDir(repo, CursorDir).Some?)
      && (CursorDir in repo && repo[CursorDir].File? ==> r[CursorDir] == repo[CursorDir])
      && (cleaned <==> ProjectRules in repo || HasCursorRules(repo) || Memory in repo)
  {
  }



  /** `clean-all` removes its three places one after the other, as lines
      257-270 do, and so it removes what `clean-rules` removes and then
      `memory`. */
  lemma ManagedRemovedInSteps(repo: Tree)
    ensures ManagedRemoved(repo).0 == RulesCleaned(repo).0 - {Memory}
    ensures ManagedRemoved(repo).1 == (RulesCleaned(repo).1 || Memory in repo)
  {
    var a := RulesCleaned(repo).0 - {Memory};
    var b := ManagedRemoved(repo).0;
    assert a.Keys == b.Keys;
    if CursorDir in repo {
      assert a[CursorDir] == b[CursorDir];
    }
  }

  /** Both clean commands keep a repository well formed. */
  lemma CleanedValid(repo: Tree, answer: string)
    requires ValidRepo(repo)
    ensures ValidRepo(RulesCleaned(repo).0) && ValidRepo(AllCleaned(repo, answer).0)
  {
    var a := repo - {ProjectRules};
    var b := repo - {ProjectRules, Memory};
    assert ValidNode(Dir(a)) && ValidNode(Dir(b));
  }

  /** Replacing one repository by a well-formed one keeps every repository
      well formed. */
  lemma UpdatedValid(repos: map<string, Tree>, path: string, repo: Tree)
    requires AllValid(repos) && ValidRepo(repo)
    ensures AllValid(repos[path := repo])
  {
  }

  /** Syncing keeps a repository well formed. */
  lemma SyncedValid(repo: Tree)
    requires ValidRepo(repo) && ProjectRules in repo
    ensures ValidRepo(Synced(repo).value)
  {
    RenumberedSpec(repo[ProjectRules]);
    WithCursorRulesValid(repo, Renumbered(repo[ProjectRules]));
  }



  // ---------------------------------------------------------------------
  // The commands, on the state they change

  /** The removals lines 217-225 and 257-265 share: `project_rules`, then
      `.cursor/rules`, each where it exists. */
  method RemoveRuleDirs(repo: Tree) returns (r: Tree, cleaned: bool)
    ensures (r, cleaned) == RulesCleaned(repo)
  {
    r, cleaned := repo, false;
    if ProjectRules in r {
      r := r - {ProjectRules};
      cleaned := true;
    } else {
      assert r - {ProjectRules} == r;
    }
    if HasCursorRules(r) {
      r := WithoutCursorRules(r);
      cleaned := true;
    }
  }

  /** The removals of lines 257-270: `project_rules`, `.cursor/rules`,
      then `memory`, each where it exists. */
  method RemoveManaged(repo: Tree) returns (r: Tree, cleaned: bool)
    ensures (r, cleaned) == ManagedRemoved(repo)
  {
    r, cleaned := RemoveRuleDirs(repo);
    if Memory in r {
      r := r - {Memory};
      cleaned := true;
    } else {
      assert r - {Memory} == r;
    }
    ManagedRemovedInSteps(repo);
  }

  /** The tool: its own `rule_sets` and `memory_starters` directories
      (absent when `None`), and every target repository by path. */
  class RuleManager {
    const ruleSets: Option<Tree>
    const memoryStarters: Option<Tree>
    var repos: map<string, Tree>

    ghost predicate Valid()
      reads this
    {
      && (ruleSets.Some? ==> ValidNode(Dir(ruleSets.value)))
      && (memoryStarters.Some? ==> ValidNode(Dir(memoryStarters.value)))
      && AllValid(repos)
    }

    constructor(ruleSets: Option<Tree>, memoryStarters: Option<Tree>, repos: map<string, Tree>)
      requires ruleSets.Some? ==> ValidNode(Dir(ruleSets.value))
      requires memoryStarters.Some? ==> ValidNode(Dir(memoryStarters.value))
      requires AllValid(repos)
      ensures Valid()
      ensures this.ruleSets == ruleSets && this.memoryStarters == memoryStarters && this.repos == repos
    {
      this.ruleSets := ruleSets;
      this.memoryStarters := memoryStarters;
      this.repos := repos;
    }

    /** `list_available_rules` (lines 30-50): the rule-set directories in
        ascending order, and 1 when there is no rule-sets directory or no
        rule set in it. */
    method ListAvailableRules() returns (code: int, listing: seq<string>)
      ensures listing == RuleSetListing(ruleSets)
      ensures code == (if listing == [] then 1 else 0)
    {
      if ruleSets.None? {
        return 1, [];
      }
      var t := ruleSets.value;
      var found: seq<string> := [];
      var pending := t.Keys;
      while pending != {}
        invariant pending <= t.Keys
        invariant multiset(found) == multiset(RuleSetNames(t) - pending)
        decreases pending
      {
        var n :| n in pending;
        if t[n].Dir? {
          assert RuleSetNames(t) - (pending - {n}) == (RuleSetNames(t) - pending) + {n};
          found := found + [n];
        } else {
          assert RuleSetNames(t) - (pending - {n}) == RuleSetNames(t) - pending;
        }
        pending := pending - {n};
      }
      listing := SortBy(found, Self);
      SortedUnique(listing, RuleSetListing(ruleSets), Self);
      code := if listing == [] then 1 else 0;
    }

    /** `install_rules(raw_path, rule_set_name)` (lines 115-170). A missing
        rule set fails with 1 and changes nothing; otherwise the repository
        at the sanitised path (created when absent) is laid out as
        `Installed` says, and the result is 0. */
    method Install(rawPath: string, ruleSetName: string) returns (code: int)
      requires Valid() && PlainName(ruleSetName)
      modifies this
      ensures Valid()
      ensures var path := Sanitise(rawPath);
        var source := RuleSetSource(ruleSets, ruleSetName);
        && (source.None? ==> code == 1 && repos == old(repos))
        && (source.Some? ==>
              code == 0 && repos == old(repos)[path := Installed(RepoAt(old(repos), path), source.value, memoryStarters)])
    {
      var path := Sanitise(rawPath);
      var source := RuleSetSource(ruleSets, ruleSetName);
      if source.None? {
        return 1;
      }
      assert ValidNode(source.value) by {
        if ruleSetName != "" {
          assert ruleSetName in ruleSets.value;
        }
      }
      var repo := RepoAt(repos, path);
      var rules := CopyAndNumberFiles(source, Some(map[]), AddMdc);
      RenumberedSpec(source.value);
      var memory := CopyMemoryStarters(memoryStarters, SubDir(repo, Memory));
      var cursorRules := CopyAndNumberFiles(Some(Dir(rules.value)), Some(map[]), AddMdc);
      InstalledValid(repo, source.value, memoryStarters);
      UpdatedValid(repos, path, Installed(repo, source.value, memoryStarters));
      repos := repos[path := Laid(repo, rules.value, memory, cursorRules.value)];
      code := 0;
    }

    /** `sync_rules(raw_path)` (lines 172-200): fails with 1 and changes
        nothing when the repository has no `project_rules`; otherwise
        regenerates `.cursor/rules` from it and returns 0. */
    method Sync(rawPath: string) returns (code: int)
      requires Valid()
      modifies this
      ensures Valid()
      ensures var path := Sanitise(rawPath);
        var synced := Synced(RepoAt(old(repos), path));
        && (synced.None? ==> code == 1 && repos == old(repos))
        && (synced.Some? ==> code == 0 && repos == old(repos)[path := synced.value])
    {
      var path := Sanitise(rawPath);
      var repo := RepoAt(repos, path);
      if ProjectRules !in repo {
        return 1;
      }
      var cursorRules := CopyAndNumberFiles(Some(repo[ProjectRules]), Some(map[]), AddMdc);
      SyncedValid(repo);
      UpdatedValid(repos, path, Synced(repo).value);
      repos := repos[path := WithCursorRules(repo, cursorRules.value)];
      code := 0;
    }

    /** `clean_rules(raw_path)` (lines 202-232): removes `project_rules` and
        `.cursor/rules` where they exist, reports whether it removed
        anything, and returns 0. A path with no repository stays absent. */
    method CleanRules(rawPath: string) returns (code: int, cleaned: bool)
      requires Valid()
      modifies this
      ensures Valid()
      ensures code == 0
      ensures var path := Sanitise(rawPath);
        if path in old(repos) then
          repos == old(repos)[path := RulesCleaned(old(repos)[path]).0] && cleaned == RulesCleaned(old(repos)[path]).1
        else
          repos == old(repos) && !cleaned
    {
      var path := Sanitise(rawPath);
      cleaned := false;
      code := 0;
      if path !in repos {
        return;
      }
      var repo := repos[path];
      CleanedValid(repo, "");
      repo, cleaned := RemoveRuleDirs(repo);
      UpdatedValid(repos, path, repo);
      repos := repos[path := repo];
    }

    /** `clean_all(raw_path)` (lines 234-277) with the confirmation `answer`
        read from the terminal: any answer but `y` changes nothing;
        otherwise `project_rules`, `.cursor/rules` and `memory` are removed
        where they exist. The result is always 0. */
    method CleanAll(rawPath: string, answer: string) returns (code: int, cleaned: bool)
      requires Valid()
      modifies this
      ensures Valid()
      ensures code == 0
      ensures var path := Sanitise(rawPath);
        if path in old(repos) then
          repos == old(repos)[path := AllCleaned(old(repos)[path], answer).0] && cleaned == AllCleaned(old(repos)[path], answer).1
        else
          repos == old(repos) && !cleaned
    {
      var path := Sanitise(rawPath);
      cleaned := false;
      code := 0;
      if !Confirmed(answer) {
        return;
      }
      if path !in repos {
        return;
      }
      var repo := repos[path];
      CleanedValid(repo, answer);
      var rest;
      rest, cleaned := RemoveManaged(repo);
      UpdatedValid(repos, path, rest);
      repos := repos[path := rest];
    }
  }
}
