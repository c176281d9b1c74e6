/**
 * The generated header: which definitions are written, in which order, and
 * the layout of the `git_status_t` structure (adverse.py, `main`).
 */
module Emitter {
  import opened Wrappers
  import opened Porcelain
  import opened Version

  /**
   * The macros the header defines: `GIT_BRANCH`, `GIT_COMMIT`, `GIT_DIRTY`,
   * `GIT_REPOSITORY`, `GIT_TAG` and `VERSION_STRING`.
   */
  datatype Macro = GitBranch | GitCommit | GitDirty | GitRepository | GitTag | VersionStringMacro

  /** One `#define`; `GIT_DIRTY` has an empty value. */
  datatype Definition = Definition(name: Macro, value: string)

  /**
   * The shape of `git_status_t` and its initializer: the widths of the
   * `char` arrays, the declared length of `files`, the `.count` written, and
   * the entries written into `files`.
   */
  datatype Layout = Layout(branchWidth: nat, commitWidth: nat, pathWidth: nat,
                           filesLength: nat, count: nat, repositoryWidth: nat,
                           files: seq<RenderedCode>)

  /** What `main` writes: the definitions, then the structure. */
  datatype VersionHeader = VersionHeader(definitions: seq<Definition>, layout: Layout)

  function Max(a: int, b: int): int { if a < b then b else a }

  /** The names of the definitions, in the order they are written. */
  function Names(defs: seq<Definition>): (names: seq<Macro>)
    ensures |names| == |defs|
  {
    if defs == [] then [] else [defs[0].name] + Names(defs[1..])
  }

  lemma {:induction false} NamesAppend(defs: seq<Definition>, d: Definition)
    ensures Names(defs + [d]) == Names(defs) + [d.name]
    decreases |defs|
  {
    if defs != [] {
      NamesAppend(defs[1..], d);
      assert (defs + [d])[1..] == defs[1..] + [d];
    }
  }

  /**
   * The structure's layout for the given values: each string field is as
   * wide as its value plus the terminator, `path` as wide as the longest
   * dirty path plus one, and `files` holds the rendered dirty entries, or the
   * single placeholder when there are none, while `.count` stays the number
   * of dirty entries; every written path fits its array.
   */
  ghost predicate LayoutOf(branch: string, commit: string, root: string,
                           dirtyFiles: seq<GitStatus>, layout: Layout)
  {
    && layout.branchWidth == |branch| + 1
    && layout.commitWidth == |commit| + 1
    && layout.repositoryWidth == |root| + 1
    && (forall k :: 0 <= k < |dirtyFiles| ==> |dirtyFiles[k].path| < layout.pathWidth)
    && (dirtyFiles == [] ==> layout.pathWidth == 1)
    && (dirtyFiles != [] ==>
          exists k :: 0 <= k < |dirtyFiles| && layout.pathWidth == |dirtyFiles[k].path| + 1)
    && layout.count == |dirtyFiles|
    && layout.filesLength == Max(|dirtyFiles|, 1)
    && |layout.files| == layout.filesLength
    && (forall k :: 0 <= k < |dirtyFiles| ==> layout.files[k] == Render(dirtyFiles[k]))
    && (dirtyFiles == [] ==> layout.files == [Render(Placeholder)])
    && (forall k :: 0 <= k < |layout.files| ==> |layout.files[k].path| < layout.pathWidth)
  }

  /** The layout loop of `main`: the longest path, the placeholder, the rendered entries. */
  method ComputeLayout(branch: string, commit: string, root: string, dirtyFiles: seq<GitStatus>)
    returns (layout: Layout)
    ensures LayoutOf(branch, commit, root, dirtyFiles, layout)
  {
    var maxPathLength := 0;
    for i := 0 to |dirtyFiles|
      invariant forall k :: 0 <= k < i ==> |dirtyFiles[k].path| <= maxPathLength
      invariant i == 0 ==> maxPathLength == 0
      invariant i > 0 ==> exists k :: 0 <= k < i && |dirtyFiles[k].path| == maxPathLength
    {
      maxPathLength := Max(|dirtyFiles[i].path|, maxPathLength);
    }
    var dirtyCount := |dirtyFiles|;
    var filesLength := Max(dirtyCount, 1);
    var files := dirtyFiles;
    if dirtyCount == 0 {
      files := files + [Placeholder];
    }
    var rendered: seq<RenderedCode> := [];
    for i := 0 to |files|
      invariant |rendered| == i
      invariant forall k :: 0 <= k < i ==> rendered[k] == Render(files[k])
    {
      rendered := rendered + [Render(files[i])];
    }
    layout := Layout(|branch| + 1, |commit| + 1, maxPathLength + 1,
                     filesLength, dirtyCount, |root| + 1, rendered);
  }

  /**
   * The definitions `main` writes before the structure, in order: branch,
   * commit, `GIT_DIRTY` for a dirty tree, repository root, the raw tag when
   * there is one, and the version string.
   */
  method WriteDefinitions(branch: string, commit: string, dirty: bool, root: string,
                          tag: Option<string>, version: string)
    returns (defs: seq<Definition>)
    ensures Names(defs)
            == [GitBranch, GitCommit] + (if dirty then [GitDirty] else [])
               + [GitRepository] + (if tag.Some? then [GitTag] else []) + [VersionStringMacro]
    ensures Definition(GitBranch, branch) in defs
    ensures Definition(GitCommit, commit) in defs
    ensures dirty ==> Definition(GitDirty, "") in defs
    ensures Definition(GitRepository, root) in defs
    ensures tag.Some? ==> Definition(GitTag, tag.value) in defs
    ensures Definition(VersionStringMacro, version) in defs
  {
    defs := [Definition(GitBranch, branch), Definition(GitCommit, commit)];
    ghost var names := [GitBranch, GitCommit];
    assert Names(defs) == names by {
      NamesAppend([Definition(GitBranch, branch)], Definition(GitCommit, commit));
    }
    if dirty {
      NamesAppend(defs, Definition(GitDirty, ""));
      defs, names := defs + [Definition(GitDirty, "")], names + [GitDirty];
    }
    NamesAppend(defs, Definition(GitRepository, root));
    defs, names := defs + [Definition(GitRepository, root)], names + [GitRepository];
    if tag.Some? {
      NamesAppend(defs, Definition(GitTag, tag.value));
      defs, names := defs + [Definition(GitTag, tag.value)], names + [GitTag];
    }
    NamesAppend(defs, Definition(VersionStringMacro, version));
    defs := defs + [Definition(VersionStringMacro, version)];
  }

  /**
   * The body of `main` after the worktree check: the definitions, with the
   * version resolved from the query results and the dirty marker from the
   * status report, then the structure.
   */
  method Generate(branch: string, commit: string, tagged: Option<string>, tag: Option<string>,
                  date: Date, report: string, root: string)
    returns (header: VersionHeader)
    requires ValidDate(date)
    ensures Names(header.definitions)
            == [GitBranch, GitCommit] + (if ParseStatus(report) != [] then [GitDirty] else [])
               + [GitRepository] + (if tag.Some? then [GitTag] else []) + [VersionStringMacro]
    ensures tag.Some? ==> Definition(GitTag, tag.value) in header.definitions
    ensures Definition(VersionStringMacro, VersionString(commit, tagged, tag, date, ParseStatus(report) != []))
            in header.definitions
    ensures Definition(GitBranch, branch) in header.definitions
    ensures Definition(GitCommit, commit) in header.definitions
    ensures Definition(GitRepository, root) in header.definitions
    ensures LayoutOf(branch, commit, root, ParseStatus(report), header.layout)
    ensures GitDirty in Names(header.definitions) <==> header.layout.count > 0
    ensures header.layout.filesLength >= 1
  {
    var dirtyFiles := ParseStatus(report);
    var version, dirtyMarker := ResolveVersion(commit, tagged, tag, date, dirtyFiles);
    var defs := WriteDefinitions(branch, commit, dirtyMarker, root, tag, version);
    var layout := ComputeLayout(branch, commit, root, dirtyFiles);
    header := VersionHeader(defs, layout);
  }
}
