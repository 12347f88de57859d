/**
  The AGENTS.md half of the maintenance tooling: map each changed path of a pull
  request to the AGENTS.md files on its directory chain, obtain a replacement
  text per file from the text generator (or keep the current one), make sure the
  required always-include block is present, and decide per file whether it
  changed, whether it is written, and what the run reports.

  The file system is a value: which paths exist, which are directories, and the
  content of each file. The generator's reply per target is a parameter, and
  writes come back as a list instead of being performed.
 */
module Agents {
  import opened Text
  import FileSummary

  /** `summarize_files(fs, cap=50)` */
  method SummarizeFiles(fs: seq<FileSummary.ChangedFile>) returns (summary: string)
    ensures summary == Join(FileSummary.SummaryLines(fs, 50), "\n")
  {
    summary := FileSummary.SummarizeFiles(fs, 50);
  }

  // ---------------------------------------------------------------------------
  // Paths and the file system
  // ---------------------------------------------------------------------------

  /** A resolved path as its sequence of segments; `[]` is the file-system root. */
  type Path = seq<string>

  const AgentsFile := "AGENTS.md"

  datatype FileSystem = FileSystem(files: map<Path, string>, directories: set<Path>)

  /** `Path.exists()` */
  predicate Exists(fs: FileSystem, p: Path) {
    p in fs.files || p in fs.directories
  }

  /** `Path.parent`; the root is its own parent. */
  function Parent(p: Path): Path {
    if p == [] then [] else p[..|p| - 1]
  }

  function AgentsIn(dir: Path): Path {
    dir + [AgentsFile]
  }

  /** `p.relative_to(root)` succeeds. */
  predicate Under(p: Path, root: Path) {
    |root| <= |p| && p[..|root|] == root
  }

  /**
    The directory whose chain is searched for changed path `rel`: the path
    itself, or its parent directory when it no longer exists; then that path if
    it is a directory, else its parent.
   */
  function StartDir(fs: FileSystem, root: Path, rel: Path): Path {
    var abs := if Exists(fs, root + rel) then root + rel else root + Parent(rel);
    if abs in fs.directories then abs else Parent(abs)
  }

  /** `[cur] + list(cur.parents)`: `cur` and every ancestor up to the file-system root. */
  function Chain(cur: Path): (c: seq<Path>)
    ensures |c| == |cur| + 1
    decreases |cur|
  {
    if cur == [] then [[]] else [cur] + Chain(cur[..|cur| - 1])
  }

  /** The `i`-th entry of the chain is `cur` with its last `i` segments removed. */
  lemma {:induction false} ChainAt(cur: Path, i: int)
    requires 0 <= i <= |cur|
    ensures Chain(cur)[i] == cur[..|cur| - i]
    decreases |cur|
  {
    if i > 0 {
      ChainAt(cur[..|cur| - 1], i - 1);
    }
  }

  /** The AGENTS.md files that exist in the first `n` directories of `chain`, in chain order. */
  function Candidates(fs: FileSystem, chain: seq<Path>, n: nat): seq<Path>
    requires n <= |chain|
  {
    if n == 0 then []
    else
      var d := chain[n - 1];
      Candidates(fs, chain, n - 1) + (if Exists(fs, AgentsIn(d)) then [AgentsIn(d)] else [])
  }

  /** A candidate is exactly an existing AGENTS.md in one of the first `n` directories. */
  lemma {:induction false} CandidatesMembers(fs: FileSystem, chain: seq<Path>, n: nat, t: Path)
    requires n <= |chain|
    ensures t in Candidates(fs, chain, n) <==> exists k :: 0 <= k < n && t == AgentsIn(chain[k]) && Exists(fs, t)
  {
    if n > 0 {
      CandidatesMembers(fs, chain, n - 1, t);
    }
  }

  /**
    The targets a changed path is added to: every existing AGENTS.md on its
    chain, or the one at the workspace root when there is none.
   */
  function TargetsOf(fs: FileSystem, root: Path, rel: Path): (ts: seq<Path>)
    ensures ts != []
  {
    var chain := Chain(StartDir(fs, root, rel));
    var found := Candidates(fs, chain, |chain|);
    if found == [] then [AgentsIn(root)] else found
  }

  /** An AGENTS.md on the chain of `cur` is one in some prefix of `cur`. */
  lemma ChainCandidate(fs: FileSystem, cur: Path, t: Path)
    ensures (exists k :: 0 <= k < |cur| + 1 && t == AgentsIn(Chain(cur)[k]) && Exists(fs, t))
        <==> (exists i :: 0 <= i <= |cur| && t == AgentsIn(cur[..i]) && Exists(fs, t))
  {
    if exists i :: 0 <= i <= |cur| && t == AgentsIn(cur[..i]) && Exists(fs, t) {
      var i :| 0 <= i <= |cur| && t == AgentsIn(cur[..i]) && Exists(fs, t);
      ChainAt(cur, |cur| - i);
    }
    if exists k :: 0 <= k < |cur| + 1 && t == AgentsIn(Chain(cur)[k]) && Exists(fs, t) {
      var k :| 0 <= k < |cur| + 1 && t == AgentsIn(Chain(cur)[k]) && Exists(fs, t);
      ChainAt(cur, k);
    }
  }

  /** The chain of `cur` has a candidate exactly when some prefix of `cur` holds an AGENTS.md. */
  lemma ChainHasCandidate(fs: FileSystem, cur: Path)
    ensures Candidates(fs, Chain(cur), |cur| + 1) != [] <==> exists i :: 0 <= i <= |cur| && Exists(fs, AgentsIn(cur[..i]))
  {
    var found := Candidates(fs, Chain(cur), |cur| + 1);
    if exists i :: 0 <= i <= |cur| && Exists(fs, AgentsIn(cur[..i])) {
      var i :| 0 <= i <= |cur| && Exists(fs, AgentsIn(cur[..i]));
      ChainCandidate(fs, cur, AgentsIn(cur[..i]));
      CandidatesMembers(fs, Chain(cur), |cur| + 1, AgentsIn(cur[..i]));
    }
    if found != [] {
      CandidatesMembers(fs, Chain(cur), |cur| + 1, found[0]);
      ChainCandidate(fs, cur, found[0]);
    }
  }

  /** What `TargetsOf` means, stated without its recursion. */
  lemma TargetsOfMeaning(fs: FileSystem, root: Path, rel: Path, t: Path)
    ensures var cur := StartDir(fs, root, rel);
      var onChain := exists i :: 0 <= i <= |cur| && Exists(fs, AgentsIn(cur[..i]));
      t in TargetsOf(fs, root, rel) <==>
        (onChain && exists i :: 0 <= i <= |cur| && t == AgentsIn(cur[..i]) && Exists(fs, t))
        || (!onChain && t == AgentsIn(root))
  {
    var cur := StartDir(fs, root, rel);
    CandidatesMembers(fs, Chain(cur), |cur| + 1, t);
    ChainCandidate(fs, cur, t);
    ChainHasCandidate(fs, cur);
  }

  /** `TargetsOf` for one workspace, as a function of the changed path. */
  function Resolver(fs: FileSystem, root: Path): Path -> seq<Path> {
    rel => TargetsOf(fs, root, rel)
  }

  /**
    Of the first `n` changed paths, in their order, those that are added to
    target `t`, given each path's `targets`.
   */
  function ImpactedBy(targets: Path -> seq<Path>, changed: seq<Path>, n: nat, t: Path): seq<Path>
    requires n <= |changed|
  {
    if n == 0 then []
    else
      var rel := changed[n - 1];
      ImpactedBy(targets, changed, n - 1, t) + (if t in targets(rel) then [rel] else [])
  }

  /** Appending to a dict's keys: a key is added at the end the first time it is seen. */
  function AddKeys(keys: seq<Path>, ts: seq<Path>): seq<Path>
    decreases |ts|
  {
    if ts == [] then keys
    else
      var before := AddKeys(keys, ts[..|ts| - 1]);
      var last := ts[|ts| - 1];
      if last in before then before else before + [last]
  }

  lemma AddKeysSnoc(keys: seq<Path>, ts: seq<Path>, t: Path)
    ensures AddKeys(keys, ts + [t]) == if t in AddKeys(keys, ts) then AddKeys(keys, ts) else AddKeys(keys, ts) + [t]
  {
    assert (ts + [t])[..|ts|] == ts;
  }

  /** Adding keys loses none and invents none. */
  lemma {:induction false} AddKeysMembers(keys: seq<Path>, ts: seq<Path>, t: Path)
    ensures t in AddKeys(keys, ts) <==> t in keys || t in ts
    decreases |ts|
  {
    if ts != [] {
      AddKeysMembers(keys, ts[..|ts| - 1], t);
      assert t in ts <==> t in ts[..|ts| - 1] || t == ts[|ts| - 1];
    }
  }

  /** The insertion order of the mapping's keys after the first `n` changed paths. */
  function KeyOrder(targets: Path -> seq<Path>, changed: seq<Path>, n: nat): seq<Path>
    requires n <= |changed|
  {
    if n == 0 then []
    else AddKeys(KeyOrder(targets, changed, n - 1), targets(changed[n - 1]))
  }

  ghost predicate Distinct(s: seq<Path>) {
    forall i, j :: 0 <= i < j < |s| ==> s[i] != s[j]
  }

  /** The mapping from AGENTS.md paths to impacted changed paths; `keys` in insertion order. */
  datatype Mapping = Mapping(keys: seq<Path>, impacted: map<Path, seq<Path>>)

  /** A chain never repeats a directory: its entries have different lengths. */
  lemma ChainDistinct(cur: Path)
    ensures Distinct(Chain(cur))
  {
    var chain := Chain(cur);
    forall i, j | 0 <= i < j < |chain| ensures chain[i] != chain[j] {
      ChainAt(cur, i);
      ChainAt(cur, j);
      assert |chain[i]| == |cur| - i && |chain[j]| == |cur| - j;
    }
  }

  /** In a chain without repeats, each directory's AGENTS.md is not among the earlier candidates. */
  lemma CandidateNew(fs: FileSystem, dirs: seq<Path>, j: int)
    requires Distinct(dirs) && 0 <= j < |dirs|
    ensures AgentsIn(dirs[j]) !in Candidates(fs, dirs, j)
  {
    forall k | 0 <= k < j ensures AgentsIn(dirs[k]) != AgentsIn(dirs[j]) {
      assert AgentsIn(dirs[k])[..|dirs[k]|] == dirs[k];
      assert AgentsIn(dirs[j])[..|dirs[j]|] == dirs[j];
    }
    CandidatesMembers(fs, dirs, j, AgentsIn(dirs[j]));
  }

  lemma ChainCandidateNew(fs: FileSystem, cur: Path, j: int)
    requires 0 <= j <= |cur|
    ensures AgentsIn(Chain(cur)[j]) !in Candidates(fs, Chain(cur), j)
  {
    ChainDistinct(cur);
    CandidateNew(fs, Chain(cur), j);
  }

  /** `mapping.setdefault(t, []).append(rel)`, with the dict's insertion order kept in `keys`. */
  method AppendTo(keys: seq<Path>, impacted: map<Path, seq<Path>>, t: Path, rel: Path)
    returns (keys': seq<Path>, impacted': map<Path, seq<Path>>)
    requires forall u :: u in impacted <==> u in keys
    ensures keys' == if t in keys then keys else keys + [t]
    ensures forall u :: u in impacted' <==> u in keys'
    ensures impacted' == impacted[t := (if t in impacted then impacted[t] else []) + [rel]]
  {
    keys', impacted' := keys, impacted;
    if t !in impacted' {
      keys' := keys' + [t];
      impacted' := impacted'[t := []];
    }
    impacted' := impacted'[t := impacted'[t] + [rel]];
  }

  /**
    `keys`/`impacted` are `keys0`/`impacted0` after `rel` was appended to the
    list of every target in `added`, in that order.
   */
  ghost predicate AppendedAll(keys0: seq<Path>, impacted0: map<Path, seq<Path>>, added: seq<Path>, rel: Path,
                              keys: seq<Path>, impacted: map<Path, seq<Path>>)
  {
    && keys == AddKeys(keys0, added)
    && (forall t :: t in impacted <==> t in keys)
    && (forall t :: t in impacted0 ==> t in impacted)
    && (forall t :: t in impacted ==>
         impacted[t] == (if t in impacted0 then impacted0[t] else []) + (if t in added then [rel] else []))
  }

  lemma AppendedStep(keys0: seq<Path>, impacted0: map<Path, seq<Path>>, added: seq<Path>, rel: Path,
                     keys: seq<Path>, impacted: map<Path, seq<Path>>, c: Path)
    requires AppendedAll(keys0, impacted0, added, rel, keys, impacted)
    requires c !in added
    ensures AppendedAll(keys0, impacted0, added + [c], rel,
      if c in keys then keys else keys + [c],
      impacted[c := (if c in impacted then impacted[c] else []) + [rel]])
  {
    var ext := added + [c];
    AddKeysSnoc(keys0, added, c);
    var impacted' := impacted[c := (if c in impacted then impacted[c] else []) + [rel]];
    forall t | t in impacted'
      ensures impacted'[t] == (if t in impacted0 then impacted0[t] else []) + (if t in ext then [rel] else [])
    {
      AppendedEntry(impacted0, added, rel, impacted, c, t);
    }
  }

  lemma AppendedEntry(impacted0: map<Path, seq<Path>>, added: seq<Path>, rel: Path,
                      impacted: map<Path, seq<Path>>, c: Path, t: Path)
    requires forall u :: u in impacted0 ==> u in impacted
    requires forall u :: u in impacted ==>
      impacted[u] == (if u in impacted0 then impacted0[u] else []) + (if u in added then [rel] else [])
    requires c !in added
    requires t == c || t in impacted
    ensures var impacted' := impacted[c := (if c in impacted then impacted[c] else []) + [rel]];
      impacted'[t] == (if t in impacted0 then impacted0[t] else []) + (if t in added + [c] then [rel] else [])
  {
    var base := if t in impacted0 then impacted0[t] else [];
    if t == c {
      if c in impacted {
        assert impacted[c] == base + [];
      }
    } else {
      assert t in added + [c] <==> t in added;
    }
  }

  /**
    The inner loop of the mapping: append `rel` to every existing AGENTS.md
    along the chain of `cur`, nearest directory first; `found` records whether
    there was one.
   */
  method AddAlongChain(fs: FileSystem, cur: Path, rel: Path, keys0: seq<Path>, impacted0: map<Path, seq<Path>>)
    returns (keys: seq<Path>, impacted: map<Path, seq<Path>>, found: bool)
    requires forall t :: t in impacted0 <==> t in keys0
    ensures found <==> Candidates(fs, Chain(cur), |cur| + 1) != []
    ensures AppendedAll(keys0, impacted0, Candidates(fs, Chain(cur), |cur| + 1), rel, keys, impacted)
  {
    var dirs := Chain(cur);
    keys, impacted, found := keys0, impacted0, false;
    for j := 0 to |dirs|
      invariant found <==> Candidates(fs, dirs, j) != []
      invariant AppendedAll(keys0, impacted0, Candidates(fs, dirs, j), rel, keys, impacted)
    {
      keys, impacted := AddCandidate(fs, cur, j, rel, keys0, impacted0, keys, impacted);
      found := found || Exists(fs, AgentsIn(dirs[j]));
    }
  }

  /** One pass of that loop: the AGENTS.md of the `j`-th directory of the chain, if it exists. */
  method AddCandidate(fs: FileSystem, cur: Path, j: nat, rel: Path, keys0: seq<Path>, impacted0: map<Path, seq<Path>>,
                      keys: seq<Path>, impacted: map<Path, seq<Path>>)
    returns (keys': seq<Path>, impacted': map<Path, seq<Path>>)
    requires j <= |cur|
    requires AppendedAll(keys0, impacted0, Candidates(fs, Chain(cur), j), rel, keys, impacted)
    ensures AppendedAll(keys0, impacted0, Candidates(fs, Chain(cur), j + 1), rel, keys', impacted')
  {
    var candidate := AgentsIn(Chain(cur)[j]);
    keys', impacted' := keys, impacted;
    if Exists(fs, candidate) {
      ChainCandidateNew(fs, cur, j);
      AppendedStep(keys0, impacted0, Candidates(fs, Chain(cur), j), rel, keys, impacted, candidate);
      keys', impacted' := AppendTo(keys, impacted, candidate, rel);
    } else {
      assert Candidates(fs, Chain(cur), j + 1) == Candidates(fs, Chain(cur), j);
    }
  }

  /** `keys`/`impacted` are the mapping built from the first `n` changed paths. */
  ghost predicate MapsAll(targets: Path -> seq<Path>, changed: seq<Path>, n: nat,
                          keys: seq<Path>, impacted: map<Path, seq<Path>>)
    requires n <= |changed|
  {
    && keys == KeyOrder(targets, changed, n)
    && (forall t :: t in impacted <==> t in keys)
    && (forall t :: t in impacted ==> impacted[t] == ImpactedBy(targets, changed, n, t))
    && (forall t :: t !in keys ==> ImpactedBy(targets, changed, n, t) == [])
  }

  lemma MapsEmpty(targets: Path -> seq<Path>, changed: seq<Path>)
    ensures MapsAll(targets, changed, 0, [], map[])
  {
  }

  lemma MapsStep(targets: Path -> seq<Path>, changed: seq<Path>, i: nat,
                 keys0: seq<Path>, impacted0: map<Path, seq<Path>>, keys: seq<Path>, impacted: map<Path, seq<Path>>)
    requires i < |changed|
    requires MapsAll(targets, changed, i, keys0, impacted0)
    requires AppendedAll(keys0, impacted0, targets(changed[i]), changed[i], keys, impacted)
    ensures MapsAll(targets, changed, i + 1, keys, impacted)
  {
    forall t | t in impacted ensures impacted[t] == ImpactedBy(targets, changed, i + 1, t) {
      ImpactedStep(targets, changed, i, keys0, impacted0, keys, impacted, t);
    }
    forall t | t !in keys ensures ImpactedBy(targets, changed, i + 1, t) == [] {
      AddKeysMembers(keys0, targets(changed[i]), t);
      assert ImpactedBy(targets, changed, i + 1, t) == ImpactedBy(targets, changed, i, t) + [];
    }
  }

  lemma ImpactedStep(targets: Path -> seq<Path>, changed: seq<Path>, i: nat,
                     keys0: seq<Path>, impacted0: map<Path, seq<Path>>, keys: seq<Path>, impacted: map<Path, seq<Path>>,
                     t: Path)
    requires i < |changed|
    requires MapsAll(targets, changed, i, keys0, impacted0)
    requires AppendedAll(keys0, impacted0, targets(changed[i]), changed[i], keys, impacted)
    requires t in impacted
    ensures impacted[t] == ImpactedBy(targets, changed, i + 1, t)
  {
    var before := ImpactedBy(targets, changed, i, t);
    assert before == if t in impacted0 then impacted0[t] else [];
    assert ImpactedBy(targets, changed, i + 1, t) == before + (if t in targets(changed[i]) then [changed[i]] else []);
  }

  /**
    One changed path of the mapping: find the directory to start from (the path
    itself, or its parent once it no longer exists; a file's directory), then
    add the path along that chain or, failing that, to the root's AGENTS.md.
   */
  method MapOne(fs: FileSystem, root: Path, rel: Path, keys0: seq<Path>, impacted0: map<Path, seq<Path>>)
    returns (keys: seq<Path>, impacted: map<Path, seq<Path>>)
    requires forall t :: t in impacted0 <==> t in keys0
    ensures AppendedAll(keys0, impacted0, TargetsOf(fs, root, rel), rel, keys, impacted)
  {
    var abs := root + rel;
    if !Exists(fs, abs) {
      abs := root + Parent(rel);
    }
    var cur := if abs in fs.directories then abs else Parent(abs);
    assert cur == StartDir(fs, root, rel);
    var found;
    keys, impacted, found := AddAlongChain(fs, cur, rel, keys0, impacted0);
    if !found {
      AppendedStep(keys0, impacted0, [], rel, keys, impacted, AgentsIn(root));
      assert [] + [AgentsIn(root)] == TargetsOf(fs, root, rel);
      keys, impacted := AppendTo(keys, impacted, AgentsIn(root), rel);
    }
  }

  /** One iteration of the mapping's outer loop: the `i`-th changed path. */
  method MapNext(fs: FileSystem, root: Path, changed: seq<Path>, i: nat, keys0: seq<Path>, impacted0: map<Path, seq<Path>>)
    returns (keys: seq<Path>, impacted: map<Path, seq<Path>>)
    requires i < |changed|
    requires MapsAll(Resolver(fs, root), changed, i, keys0, impacted0)
    ensures MapsAll(Resolver(fs, root), changed, i + 1, keys, impacted)
  {
    keys, impacted := MapOne(fs, root, changed[i], keys0, impacted0);
    assert Resolver(fs, root)(changed[i]) == TargetsOf(fs, root, changed[i]);
    MapsStep(Resolver(fs, root), changed, i, keys0, impacted0, keys, impacted);
  }

  /**
    `map_changed_paths_to_agents`: for each changed path, walk its directory
    chain and append the path to every existing AGENTS.md on it, falling back
    to the workspace root's AGENTS.md when the chain has none.
   */
  method MapChangedPaths(fs: FileSystem, root: Path, changed: seq<Path>) returns (m: Mapping)
    ensures MapsAll(Resolver(fs, root), changed, |changed|, m.keys, m.impacted)
  {
    ghost var targets := Resolver(fs, root);
    var keys: seq<Path> := [];
    var impacted: map<Path, seq<Path>> := map[];
    MapsEmpty(targets, changed);
    for i := 0 to |changed|
      invariant MapsAll(targets, changed, i, keys, impacted)
    {
      keys, impacted := MapNext(fs, root, changed, i, keys, impacted);
    }
    m := Mapping(keys, impacted);
  }

  /** Keys are never repeated. */
  lemma {:induction false} AddKeysDistinct(keys: seq<Path>, ts: seq<Path>)
    requires Distinct(keys)
    ensures Distinct(AddKeys(keys, ts))
    decreases |ts|
  {
    if ts != [] {
      AddKeysDistinct(keys, ts[..|ts| - 1]);
    }
  }

  lemma {:induction false} KeyOrderDistinct(targets: Path -> seq<Path>, changed: seq<Path>, n: nat)
    requires n <= |changed|
    ensures Distinct(KeyOrder(targets, changed, n))
  {
    if n > 0 {
      KeyOrderDistinct(targets, changed, n - 1);
      AddKeysDistinct(KeyOrder(targets, changed, n - 1), targets(changed[n - 1]));
    }
  }

  /** A target is a key exactly when one of the first `n` changed paths is added to it. */
  lemma {:induction false} KeyOrderMembers(targets: Path -> seq<Path>, changed: seq<Path>, n: nat, t: Path)
    requires n <= |changed|
    ensures t in KeyOrder(targets, changed, n) <==> exists k :: 0 <= k < n && t in targets(changed[k])
  {
    if n > 0 {
      KeyOrderMembers(targets, changed, n - 1, t);
      AddKeysMembers(KeyOrder(targets, changed, n - 1), targets(changed[n - 1]), t);
    }
  }

  /** A changed path is in a target's list exactly when the target is one of its targets. */
  lemma {:induction false} ImpactedByMembers(targets: Path -> seq<Path>, changed: seq<Path>, n: nat, t: Path, rel: Path)
    requires n <= |changed|
    ensures rel in ImpactedBy(targets, changed, n, t) <==> rel in changed[..n] && t in targets(rel)
  {
    if n > 0 {
      ImpactedByMembers(targets, changed, n - 1, t, rel);
      assert changed[..n] == changed[..n - 1] + [changed[n - 1]];
    }
  }

  /**
    The mapping covers every changed path: each one lands in at least one
    target's list, and the mapping is empty only when nothing changed.
   */
  lemma EveryPathMapped(fs: FileSystem, root: Path, changed: seq<Path>)
    ensures forall rel :: rel in changed ==>
      exists t :: t in KeyOrder(Resolver(fs, root), changed, |changed|) && rel in ImpactedBy(Resolver(fs, root), changed, |changed|, t)
    ensures KeyOrder(Resolver(fs, root), changed, |changed|) == [] <==> changed == []
  {
    var targets := Resolver(fs, root);
    assert changed[..|changed|] == changed;
    forall rel | rel in changed
      ensures exists t :: t in KeyOrder(targets, changed, |changed|) && rel in ImpactedBy(targets, changed, |changed|, t)
    {
      var k :| 0 <= k < |changed| && changed[k] == rel;
      var t := TargetsOf(fs, root, rel)[0];
      KeyOrderMembers(targets, changed, |changed|, t);
      ImpactedByMembers(targets, changed, |changed|, t, rel);
    }
    if changed != [] {
      KeyOrderMembers(targets, changed, |changed|, TargetsOf(fs, root, changed[0])[0]);
    }
  }

  /** Which targets can lie outside the workspace: only AGENTS.md files above it. */
  lemma TargetsUnderRoot(fs: FileSystem, root: Path, rel: Path, t: Path)
    requires root in fs.directories
    requires forall k :: 0 <= k < |root| ==> !Exists(fs, AgentsIn(root[..k]))
    requires t in TargetsOf(fs, root, rel)
    ensures Under(t, root)
  {
    var cur := StartDir(fs, root, rel);
    var abs := if Exists(fs, root + rel) then root + rel else root + Parent(rel);
    assert abs[..|root|] == root;
    if abs !in fs.directories {
      assert abs != root;
      assert |abs| > |root|;
      assert cur == abs[..|abs| - 1];
      assert cur[..|root|] == abs[..|root|];
    }
    TargetsOfMeaning(fs, root, rel, t);
    if t != AgentsIn(root) {
      var i :| 0 <= i <= |cur| && t == AgentsIn(cur[..i]) && Exists(fs, t);
      assert i >= |root| by {
        assert forall k :: 0 <= k < |root| ==> cur[..k] == root[..k];
      }
      assert t[..|root|] == cur[..i][..|root|];
    }
  }

  /**
    The chain walk does not stop at the workspace: with the workspace at `/w`
    and an AGENTS.md at the file-system root, a change to `a` is mapped to
    `/AGENTS.md`, which is not under the workspace.
   */
  lemma AncestorAboveWorkspace()
    ensures var fs := FileSystem(map[[AgentsFile] := "x"], {[], ["w"]});
      TargetsOf(fs, ["w"], ["a"]) == [[AgentsFile]] && !Under([AgentsFile], ["w"])
  {
    var fs := FileSystem(map[[AgentsFile] := "x"], {[], ["w"]});
    var w: Path := ["w"];
    assert |"w"| != |AgentsFile| && |"a"| != |AgentsFile|;
    assert ["w", "a"] !in fs.files && ["w", "a"] !in fs.directories;
    assert w + Parent(["a"]) == w;
    assert StartDir(fs, w, ["a"]) == w;
    assert w[..0] == [];
    assert Chain(w) == [w, []];
    assert AgentsIn(w) == ["w", AgentsFile] && AgentsIn([]) == [AgentsFile];
    assert ["w", AgentsFile] !in fs.files && ["w", AgentsFile] !in fs.directories;
    assert Candidates(fs, [w, []], 1) == [];
    assert Candidates(fs, [w, []], 2) == [[AgentsFile]];
    assert TargetsOf(fs, w, ["a"]) == [[AgentsFile]];
    assert [AgentsFile][..|w|][0] != w[0];
  }

  // ---------------------------------------------------------------------------
  // The required block
  // ---------------------------------------------------------------------------

  /** `ensure_always_include_block`: append the stripped block unless it is blank or present. */
  function EnsureAlwaysIncludeBlock(text: string, required: string): string {
    var block := Strip(required);
    if block == [] then text
    else if Contains(text, block) then text
    else text + "\n\n" + block + "\n"
  }

  /** The block is appended exactly when it is non-blank and absent, and then it is present. */
  lemma EnsureBlockMeaning(text: string, required: string)
    ensures var r := EnsureAlwaysIncludeBlock(text, required);
      && (Strip(required) == [] ==> r == text)
      && (Strip(required) != [] && Contains(text, Strip(required)) ==> r == text)
      && (Strip(required) != [] && !Contains(text, Strip(required)) ==> r == text + "\n\n" + Strip(required) + "\n")
      && |text| <= |r| && r[..|text|] == text
      && (Strip(required) != [] ==> Contains(r, Strip(required)))
  {
    var block := Strip(required);
    if block != [] && !Contains(text, block) {
      ContainsWithin(text + "\n\n", block, "\n", block);
    }
  }

  /** Enforcing the block twice is enforcing it once. */
  lemma EnsureBlockIdempotent(text: string, required: string)
    ensures EnsureAlwaysIncludeBlock(EnsureAlwaysIncludeBlock(text, required), required)
         == EnsureAlwaysIncludeBlock(text, required)
  {
    EnsureBlockMeaning(text, required);
  }

  // ---------------------------------------------------------------------------
  // The generator's reply and the content it yields
  // ---------------------------------------------------------------------------

  /**
    What the generator call produced: it raised (no reply, unparsable JSON, or
    an object without `updated_content`), it parsed to something other than an
    object, or it gave an object with the two fields (a missing `summary` is "").
   */
  datatype Reply = Raised | NotAnObject | Answer(content: string, summary: string)

  const FailureSummary := "No LLM changes; enforced required block."

  datatype Update = Update(content: string, summary: string)

  /** `llm_update` after the call: pick the content, then enforce the required block. */
  function LlmUpdate(current: string, reply: Reply, always: string): Update {
    var (content, summary) := match reply
      case Raised => (current, FailureSummary)
      case NotAnObject => ("", "")
      case Answer(c, s) => (c, s);
    Update(EnsureAlwaysIncludeBlock(if content != "" then content else current, always), summary)
  }

  /**
    The summary comes from the reply, or is the failure note when the call
    raised; the content is the reply's when it gave a non-empty one and the
    current text otherwise, and it carries the required block either way.
   */
  lemma LlmUpdateMeaning(current: string, reply: Reply, always: string)
    ensures var u := LlmUpdate(current, reply, always);
      && (reply.Raised? ==> u.summary == FailureSummary)
      && (reply.NotAnObject? ==> u.summary == "")
      && (reply.Answer? ==> u.summary == reply.summary)
      && (reply.Answer? && reply.content != "" ==> u.content == EnsureAlwaysIncludeBlock(reply.content, always))
      && (!(reply.Answer? && reply.content != "") ==> u.content == EnsureAlwaysIncludeBlock(current, always))
      && (Strip(always) != [] ==> Contains(u.content, Strip(always)))
  {
    EnsureBlockMeaning(if reply.Answer? && reply.content != "" then reply.content else current, always);
  }

  // ---------------------------------------------------------------------------
  // The run over all targets
  // ---------------------------------------------------------------------------

  /** `path.read_text() if path.exists() else ""` */
  function CurrentText(fs: FileSystem, p: Path): string {
    if p in fs.files then fs.files[p] else ""
  }

  /** A target is processed without raising: it is not a directory, and it lies in the workspace. */
  predicate Processable(fs: FileSystem, root: Path, p: Path) {
    (p in fs.files || p !in fs.directories) && Under(p, root)
  }

  function ReplyFor(replies: map<Path, Reply>, p: Path): Reply {
    if p in replies then replies[p] else Raised
  }

  function UpdateFor(fs: FileSystem, replies: map<Path, Reply>, always: string, p: Path): Update {
    LlmUpdate(CurrentText(fs, p), ReplyFor(replies, p), always)
  }

  /** A target counts as changed when the new and the current text differ after stripping. */
  predicate IsChanged(fs: FileSystem, replies: map<Path, Reply>, always: string, p: Path) {
    Strip(UpdateFor(fs, replies, always, p).content) != Strip(CurrentText(fs, p))
  }

  datatype ReportEntry = ReportEntry(file: Path, changed: bool, summary: string)

  /** `p.relative_to(root)`: the rest of `p` after the workspace. */
  function RelativeTo(p: Path, root: Path): (r: Path)
    requires Under(p, root)
    ensures root + r == p
  {
    var r := p[|root|..];
    assert forall k :: 0 <= k < |p| ==> (root + r)[k] == p[k];
    r
  }

  /**
    The report entry of one processed target: its path in the workspace, whether
    it changed, and the generator's summary, with "No changes" standing in for an
    empty one on an unchanged target.
   */
  function ReportFor(fs: FileSystem, root: Path, replies: map<Path, Reply>, always: string, p: Path): ReportEntry
    requires Under(p, root)
  {
    var u := UpdateFor(fs, replies, always, p);
    if ChangeTest(fs, replies, always)(p) then ReportEntry(RelativeTo(p, root), true, u.summary)
    else ReportEntry(RelativeTo(p, root), false, if u.summary != "" then u.summary else "No changes")
  }

  lemma ReportForMeaning(fs: FileSystem, root: Path, replies: map<Path, Reply>, always: string, p: Path)
    requires Under(p, root)
    ensures var e := ReportFor(fs, root, replies, always, p);
      && root + e.file == p
      && e.changed == IsChanged(fs, replies, always, p)
      && (e.changed ==> e.summary == UpdateFor(fs, replies, always, p).summary)
      && (!e.changed && UpdateFor(fs, replies, always, p).summary == [] ==> e.summary == "No changes")
      && (!e.changed && UpdateFor(fs, replies, always, p).summary != [] ==> e.summary == UpdateFor(fs, replies, always, p).summary)
  {
  }

  /** `IsChanged` for one run, as a function of the target. */
  function ChangeTest(fs: FileSystem, replies: map<Path, Reply>, always: string): Path -> bool {
    p => IsChanged(fs, replies, always, p)
  }

  /** The content each target would be given in one run. */
  function NewContent(fs: FileSystem, replies: map<Path, Reply>, always: string): Path -> string {
    p => UpdateFor(fs, replies, always, p).content
  }

  /** What processing target `p` writes: its new content, in apply mode and when it changed. */
  function WriteAt(changed: Path -> bool, content: Path -> string, apply: bool, p: Path): seq<(Path, string)> {
    if apply && changed(p) then [(p, content(p))] else []
  }

  /** The files written while processing the first `n` targets, in order. */
  function Writes(changed: Path -> bool, content: Path -> string, apply: bool, keys: seq<Path>, n: nat)
    : seq<(Path, string)>
    requires n <= |keys|
  {
    if n == 0 then [] else Writes(changed, content, apply, keys, n - 1) + WriteAt(changed, content, apply, keys[n - 1])
  }

  /** Result of a run. `sentinel` is whether `.agents_updates_applied` is written. */
  datatype Outcome =
    | NothingToDo
    | Completed(report: seq<ReportEntry>, writes: seq<(Path, string)>, sentinel: bool)
    | Aborted(writes: seq<(Path, string)>)

  /** The report entry of each target of one run. */
  function Reporter(fs: FileSystem, root: Path, replies: map<Path, Reply>, always: string): Path --> ReportEntry {
    p requires Under(p, root) => ReportFor(fs, root, replies, always, p)
  }

  /** `Processable` for one run, as a function of the target. */
  function ProcessTest(fs: FileSystem, root: Path): Path -> bool {
    p => Processable(fs, root, p)
  }

  /** The first `n` targets pass `ok`, and `report` holds their entries in order. */
  ghost predicate Reported(ok: Path -> bool, entryOf: Path --> ReportEntry, keys: seq<Path>, n: nat, report: seq<ReportEntry>) {
    && n <= |keys| && |report| == n
    && forall j :: 0 <= j < n ==> ok(keys[j]) && entryOf.requires(keys[j]) && report[j] == entryOf(keys[j])
  }

  lemma ReportedStep(ok: Path -> bool, entryOf: Path --> ReportEntry, keys: seq<Path>, n: nat, report: seq<ReportEntry>)
    requires Reported(ok, entryOf, keys, n, report)
    requires n < |keys| && ok(keys[n]) && entryOf.requires(keys[n])
    ensures Reported(ok, entryOf, keys, n + 1, report + [entryOf(keys[n])])
  {
  }

  /**
    What the loop of `main` yields over `keys`, in order, given which targets
    can be processed, their report entries, which of them change and their new
    content.
   */
  ghost predicate DispatchedBy(ok: Path -> bool, entryOf: Path --> ReportEntry, changed: Path -> bool,
                               content: Path -> string, apply: bool, keys: seq<Path>, outcome: Outcome)
  {
    && !outcome.NothingToDo?
    && (outcome.Completed? <==> forall i :: 0 <= i < |keys| ==> ok(keys[i]))
    && (outcome.Completed? ==>
         && Reported(ok, entryOf, keys, |keys|, outcome.report)
         && outcome.writes == Writes(changed, content, apply, keys, |keys|)
         && outcome.sentinel == (outcome.writes != []))
    && (outcome.Aborted? ==>
         exists n :: 0 <= n < |keys| && !ok(keys[n]) && (forall i :: 0 <= i < n ==> ok(keys[i]))
           && outcome.writes == Writes(changed, content, apply, keys, n))
  }

  /** `DispatchedBy` for one run. */
  ghost predicate Dispatched(fs: FileSystem, root: Path, keys: seq<Path>, replies: map<Path, Reply>,
                             always: string, apply: bool, outcome: Outcome)
  {
    DispatchedBy(ProcessTest(fs, root), Reporter(fs, root, replies, always), ChangeTest(fs, replies, always),
                 NewContent(fs, replies, always), apply, keys, outcome)
  }

  /**
    The loop of `main` over the mapping's targets: read, obtain the update,
    compare after stripping, report, and write in apply mode. The first target
    that cannot be read or lies outside the workspace ends the run.
   */
  method Dispatch(fs: FileSystem, root: Path, keys: seq<Path>, replies: map<Path, Reply>, always: string, apply: bool)
    returns (outcome: Outcome)
    ensures Dispatched(fs, root, keys, replies, always, apply, outcome)
  {
    var n, report, writes, anyApplied := ProcessTargets(fs, root, keys, replies, always, apply);
    ghost var ok := ProcessTest(fs, root);
    ghost var entryOf := Reporter(fs, root, replies, always);
    ghost var changed := ChangeTest(fs, replies, always);
    ghost var content := NewContent(fs, replies, always);
    if n < |keys| {
      outcome := Aborted(writes);
      AbortedBy(ok, entryOf, changed, content, apply, keys, n, report);
    } else {
      outcome := Completed(report, writes, anyApplied);
      CompletedBy(ok, entryOf, changed, content, apply, keys, report);
    }
  }

  /**
    The loop itself: it processes targets in order and stops before the first
    one that cannot be processed, returning how many it went through, their
    report entries, the writes, and whether anything was written.
   */
  method ProcessTargets(fs: FileSystem, root: Path, keys: seq<Path>, replies: map<Path, Reply>, always: string, apply: bool)
    returns (n: nat, report: seq<ReportEntry>, writes: seq<(Path, string)>, anyApplied: bool)
    ensures n <= |keys| && (n < |keys| ==> !Processable(fs, root, keys[n]))
    ensures Reported(ProcessTest(fs, root), Reporter(fs, root, replies, always), keys, n, report)
    ensures writes == Writes(ChangeTest(fs, replies, always), NewContent(fs, replies, always), apply, keys, n)
    ensures anyApplied == (|writes| > 0)
  {
    report, writes, anyApplied := [], [], false;
    n := 0;
    while n < |keys| && Processable(fs, root, keys[n])
      invariant n <= |keys|
      invariant Reported(ProcessTest(fs, root), Reporter(fs, root, replies, always), keys, n, report)
      invariant writes == Writes(ChangeTest(fs, replies, always), NewContent(fs, replies, always), apply, keys, n)
      invariant anyApplied == (|writes| > 0)
    {
      report, writes, anyApplied := ProcessNext(fs, root, keys, replies, always, apply, n, report, writes, anyApplied);
      n := n + 1;
    }
  }

  /** One iteration of that loop: the `n`-th target. */
  method ProcessNext(fs: FileSystem, root: Path, keys: seq<Path>, replies: map<Path, Reply>, always: string, apply: bool,
                     n: nat, report: seq<ReportEntry>, writes: seq<(Path, string)>, anyApplied: bool)
    returns (report': seq<ReportEntry>, writes': seq<(Path, string)>, anyApplied': bool)
    requires n < |keys| && Processable(fs, root, keys[n])
    requires Reported(ProcessTest(fs, root), Reporter(fs, root, replies, always), keys, n, report)
    requires writes == Writes(ChangeTest(fs, replies, always), NewContent(fs, replies, always), apply, keys, n)
    requires anyApplied == (|writes| > 0)
    ensures Reported(ProcessTest(fs, root), Reporter(fs, root, replies, always), keys, n + 1, report')
    ensures writes' == Writes(ChangeTest(fs, replies, always), NewContent(fs, replies, always), apply, keys, n + 1)
    ensures anyApplied' == (|writes'| > 0)
  {
    ghost var ok := ProcessTest(fs, root);
    ghost var entryOf := Reporter(fs, root, replies, always);
    var entry, written := ProcessTarget(fs, root, replies, always, apply, keys[n]);
    ReportedStep(ok, entryOf, keys, n, report);
    report' := report + [entry];
    writes' := writes + written;
    anyApplied' := anyApplied || |written| > 0;
  }

  /** The loop stopped at the `n`-th target, the first that cannot be processed. */
  lemma AbortedBy(ok: Path -> bool, entryOf: Path --> ReportEntry, changed: Path -> bool,
                  content: Path -> string, apply: bool, keys: seq<Path>, n: nat, report: seq<ReportEntry>)
    requires n < |keys| && !ok(keys[n])
    requires Reported(ok, entryOf, keys, n, report)
    ensures DispatchedBy(ok, entryOf, changed, content, apply, keys, Aborted(Writes(changed, content, apply, keys, n)))
  {
  }

  /** The loop went through every target. */
  lemma CompletedBy(ok: Path -> bool, entryOf: Path --> ReportEntry, changed: Path -> bool,
                    content: Path -> string, apply: bool, keys: seq<Path>, report: seq<ReportEntry>)
    requires Reported(ok, entryOf, keys, |keys|, report)
    ensures var writes := Writes(changed, content, apply, keys, |keys|);
      DispatchedBy(ok, entryOf, changed, content, apply, keys, Completed(report, writes, writes != []))
  {
  }

  /**
    One pass of that loop on a target that can be processed: read it, obtain
    the update, compare after stripping, and report; in apply mode a changed
    target is also written.
   */
  method ProcessTarget(fs: FileSystem, root: Path, replies: map<Path, Reply>, always: string, apply: bool, p: Path)
    returns (entry: ReportEntry, written: seq<(Path, string)>)
    requires Processable(fs, root, p)
    ensures entry == ReportFor(fs, root, replies, always, p)
    ensures written == WriteAt(ChangeTest(fs, replies, always), NewContent(fs, replies, always), apply, p)
  {
    var current := if p in fs.files then fs.files[p] else "";
    var update := LlmUpdate(current, ReplyFor(replies, p), always);
    var rel := RelativeTo(p, root);
    written := [];
    if Strip(update.content) == Strip(current) {
      entry := ReportEntry(rel, false, if update.summary != "" then update.summary else "No changes");
    } else {
      if apply {
        written := [(p, update.content)];
      }
      entry := ReportEntry(rel, true, update.summary);
    }
  }

  /**
    `main` from the file list on: nothing to do without changed files,
    otherwise map the paths to their targets and run the loop over them.
   */
  method RunUpdate(fs: FileSystem, root: Path, changed: seq<Path>, replies: map<Path, Reply>, always: string, apply: bool)
    returns (outcome: Outcome)
    ensures changed == [] ==> outcome == NothingToDo
    ensures changed != [] ==>
      Dispatched(fs, root, KeyOrder(Resolver(fs, root), changed, |changed|), replies, always, apply, outcome)
  {
    if changed == [] {
      return NothingToDo;
    }
    var m := MapChangedPaths(fs, root, changed);
    outcome := Dispatch(fs, root, m.keys, replies, always, apply);
  }

  /** Suggest mode writes nothing. */
  lemma {:induction false} SuggestWritesNothing(changed: Path -> bool, content: Path -> string, keys: seq<Path>, n: nat)
    requires n <= |keys|
    ensures Writes(changed, content, false, keys, n) == []
  {
    if n > 0 {
      SuggestWritesNothing(changed, content, keys, n - 1);
    }
  }

  /** Every write is a changed target of the first `n`, with its new content, in apply mode. */
  lemma {:induction false} WritesMembers(changed: Path -> bool, content: Path -> string, apply: bool,
                                         keys: seq<Path>, n: nat, w: (Path, string))
    requires n <= |keys|
    requires w in Writes(changed, content, apply, keys, n)
    ensures apply && changed(w.0) && w.1 == content(w.0)
    ensures exists i :: 0 <= i < n && w.0 == keys[i]
  {
    if w in Writes(changed, content, apply, keys, n - 1) {
      WritesMembers(changed, content, apply, keys, n - 1, w);
    } else {
      assert w.0 == keys[n - 1];
    }
  }

  /** In apply mode every changed target among the first `n` is written with its new content. */
  lemma {:induction false} WritesInclude(changed: Path -> bool, content: Path -> string, keys: seq<Path>, n: nat, i: nat)
    requires i < n <= |keys|
    requires changed(keys[i])
    ensures (keys[i], content(keys[i])) in Writes(changed, content, true, keys, n)
  {
    if i < n - 1 {
      WritesInclude(changed, content, keys, n - 1, i);
    }
  }

  /** Something is written exactly when, in apply mode, one of the first `n` targets changed. */
  lemma WritesNonEmpty(changed: Path -> bool, content: Path -> string, apply: bool, keys: seq<Path>, n: nat)
    requires n <= |keys|
    ensures Writes(changed, content, apply, keys, n) != [] <==> apply && exists i :: 0 <= i < n && changed(keys[i])
  {
    var ws := Writes(changed, content, apply, keys, n);
    if ws != [] {
      WritesMembers(changed, content, apply, keys, n, ws[0]);
    }
    if apply && exists i :: 0 <= i < n && changed(keys[i]) {
      var i :| 0 <= i < n && changed(keys[i]);
      WritesInclude(changed, content, keys, n, i);
    }
  }

  /** Whatever a run writes carries the required block. */
  lemma WrittenHasBlock(fs: FileSystem, replies: map<Path, Reply>, always: string, apply: bool,
                        keys: seq<Path>, n: nat, w: (Path, string))
    requires n <= |keys|
    requires w in Writes(ChangeTest(fs, replies, always), NewContent(fs, replies, always), apply, keys, n)
    requires Strip(always) != []
    ensures Contains(w.1, Strip(always))
  {
    WritesMembers(ChangeTest(fs, replies, always), NewContent(fs, replies, always), apply, keys, n, w);
    assert w.1 == UpdateFor(fs, replies, always, w.0).content;
    LlmUpdateMeaning(CurrentText(fs, w.0), ReplyFor(replies, w.0), always);
  }

  /**
    In an existing workspace with no AGENTS.md above it, every target that is
    not a directory can be processed.
   */
  lemma TargetsProcessable(fs: FileSystem, root: Path, changed: seq<Path>)
    requires root in fs.directories
    requires forall k :: 0 <= k < |root| ==> !Exists(fs, AgentsIn(root[..k]))
    requires forall t :: t in fs.directories ==> t !in KeyOrder(Resolver(fs, root), changed, |changed|)
    ensures var keys := KeyOrder(Resolver(fs, root), changed, |changed|);
      forall i :: 0 <= i < |keys| ==> Processable(fs, root, keys[i])
  {
    var keys := KeyOrder(Resolver(fs, root), changed, |changed|);
    forall i | 0 <= i < |keys| ensures Processable(fs, root, keys[i]) {
      KeyOrderMembers(Resolver(fs, root), changed, |changed|, keys[i]);
      var k :| 0 <= k < |changed| && keys[i] in Resolver(fs, root)(changed[k]);
      TargetsUnderRoot(fs, root, changed[k], keys[i]);
    }
  }

  /** A loop over targets that can all be processed runs to completion. */
  lemma DispatchCompletes(fs: FileSystem, root: Path, keys: seq<Path>, replies: map<Path, Reply>, always: string,
                          apply: bool, outcome: Outcome)
    requires Dispatched(fs, root, keys, replies, always, apply, outcome)
    requires forall i :: 0 <= i < |keys| ==> Processable(fs, root, keys[i])
    ensures outcome.Completed?
  {
    var ok := ProcessTest(fs, root);
    forall i | 0 <= i < |keys| ensures ok(keys[i]) {
    }
  }

  /** Such a run therefore completes. */
  lemma RunCompletes(fs: FileSystem, root: Path, changed: seq<Path>, replies: map<Path, Reply>, always: string,
                     apply: bool, outcome: Outcome)
    requires root in fs.directories
    requires forall k :: 0 <= k < |root| ==> !Exists(fs, AgentsIn(root[..k]))
    requires forall t :: t in fs.directories ==> t !in KeyOrder(Resolver(fs, root), changed, |changed|)
    requires Dispatched(fs, root, KeyOrder(Resolver(fs, root), changed, |changed|), replies, always, apply, outcome)
    ensures outcome.Completed?
  {
    var keys := KeyOrder(Resolver(fs, root), changed, |changed|);
    TargetsProcessable(fs, root, changed);
    assert forall i :: 0 <= i < |keys| ==> Processable(fs, root, keys[i]);
    DispatchCompletes(fs, root, keys, replies, always, apply, outcome);
  }
}
