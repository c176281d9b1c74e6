# adverse: version header derivation, modelled in Dafny

`adverse.py` generates a C header that gives a build its own provenance: the
git branch and commit, the newest tag, a human version string and the list of
files that differ from the commit. This project models the part of it with
real logic:

- **Version resolution** (`Version`): the tag's `v<digit>` prefix is dropped,
  the short hash and commit date (`<commit[:7]>-<YYYYMMDD>`) stand in when there
  is no tag, `-next-<commit[:7]>-<YYYYMMDD>` marks a HEAD that is ahead of the
  newest tagged commit, and `-dirty` marks a working tree with changes.
  `ResolveVersion` follows the reassignments of `main` step by step and is
  proved equal to `VersionString`, a definition by cases; the lemmas state
  each case.
- **Porcelain status** (`Porcelain`): the `git status --porcelain -z` report is
  split on NUL, every non-empty record becomes a `GitStatus` whose code is the
  first two characters and whose path starts at offset 3, and `render` splits
  the code into its `x` and `y` columns. Parsing is proved to undo the
  single-path record format `XY PATH\0`, and `IsDirty` (the early-returning
  loop of `Git.dirty`) is proved to agree with "the parse is non-empty".
- **Header layout** (`Emitter`): which `#define`s are written and in which
  order, the widths of the `char` arrays of `git_status_t` (value length plus
  the terminator, and for `path` the longest dirty path plus one, computed by a
  loop), the length of `files` (`max(count, 1)`), `.count`, and the entries
  written, with a placeholder `("", "  ")` for a clean tree.

The query results of git (branch, commit, the newest tagged commit, its tag,
the commit date, the status report, the repository root) are parameters; the
root is the string `str(Path(...))` gives for git's output, after `Path` has
normalised it (trailing slashes dropped, separators converted on Windows).
An absent result is `None`. The quirk of `main` when a tagged commit is found
but its tag lookup fails is kept: Python formats the missing tag as the text
`None`, so the version becomes `None-next-...` and the untagged fallback is
skipped (`Version.VersionAheadWithoutTagName`).

A clean tree can still get a version ending in `-dirty`: the tag itself may
end in `-dirty` (`Version.CleanVersionEndingInDirty`).

A rename or copy is written by git as `XY TO\0FROM\0`. The parser takes the
`FROM` path as an entry of its own, so such a change is counted twice and its
second entry carries the first two characters of the old path as its code
(`Porcelain.RenameGivesTwoEntries`, for a rename anywhere in a report). The
model keeps this behaviour.

Files: `wrappers.dfy` (Option), `porcelain.dfy`, `version.dfy`, `emitter.dfy`.

## Model

| member | source | states |
|---|---|---|
| `Porcelain.Split` | adverse.py:87 | `split("\x00")`: at least one part, no part contains the separator, and joining the parts with it gives the report back |
| `Porcelain.ParseLine` | adverse.py:89 | the code is the first `min(2, len)` characters of the record; a record of three or more characters is exactly code, one separator character, path; a shorter record has an empty path |
| `Porcelain.ParseRecords` | adverse.py:87-89 | at most one entry per record, and no entry exactly when every record is empty |
| `Porcelain.ParseRecordsCount` | adverse.py:87-89 | exactly one entry per non-empty record: the number of entries is the number of non-empty records |
| `Porcelain.ParseStatus` | adverse.py:86-89 | `status()` yields nothing exactly when the report consists of NUL characters only |
| `Porcelain.ParseReport` | adverse.py:86-89 | parsing the report `XY PATH\0...` of well-formed entries gives the same entries back, one per record, in order |
| `Porcelain.ParseRecordsAppend` | adverse.py:87-89 | the entries of consecutive records are the entries of the first records followed by those of the rest: each record contributes in place and in order |
| `Porcelain.ParseStatusPrefix` | adverse.py:86-89 | a report `RECORD\0REST` yields the entry `ParseLine(RECORD)` if the record is non-empty, then the entries of `REST` |
| `Porcelain.RenameGivesTwoEntries` | adverse.py:86-89 | a rename record `XY TO\0FROM\0` at the head of any report gives two entries, `(TO, XY)` and the old path parsed as a record of its own, followed by the entries of the rest |
| `Porcelain.Render` | adverse.py:48-51 | keeps the path; `x` and `y` are at most one character and together are the first two characters of the code; `x` is the first character of any non-empty code and `y` the second of any code of two or more |
| `Porcelain.RenderExamples` | adverse.py:48-51 | `" M"` renders as `x = ' '`, `y = 'M'`; the placeholder code `"  "` as two spaces |
| `Porcelain.IsDirty` | adverse.py:69-72 | `dirty()` is true exactly when `status()` yields at least one entry |
| `Version.FormatDate` | adverse.py:140-141 | `%Y%m%d` gives eight decimal digits |
| `Version.FormatDateDecodes` | adverse.py:141 | the first four digits read back as the year, the next two as the month, the last two as the day |
| `Version.FormatDateExample` | adverse.py:141 | 5 March 2024 is written `20240305` |
| `Version.ShortCommit` | adverse.py:145 | `commit[:7]` (the Python prefix slice `Take`) is a prefix of the hash, of length `min(7, len)` |
| `Version.Stamp` | adverse.py:149 | `<commit[:7]>-<YYYYMMDD>` has `min(7, len) + 9` characters |
| `Version.Canonicalise` | adverse.py:135-137 | a tag `v<digit>...` loses exactly its `v`, any other tag is kept, and the result never has a `v<digit>` prefix |
| `Version.CanonicaliseIdempotent` | adverse.py:135-137 | canonicalising twice is canonicalising once |
| `Version.CanonicaliseExamples` | adverse.py:135-137 | `v2.0.1` becomes `2.0.1`; `version1` is kept |
| `Version.ResolveVersion` | adverse.py:128-156 | the step-by-step reassignments of `version` give `VersionString` of the inputs, and the `GIT_DIRTY` marker is set exactly when there are dirty files |
| `Version.VersionWithoutTag` | adverse.py:147-149 | with no tag and no (or an empty) tagged commit, the version is `<commit[:7]>-<YYYYMMDD>`, plus `-dirty` for a dirty tree |
| `Version.VersionAtTag` | adverse.py:143-145 | when the newest tagged commit is HEAD, the version is the canonical tag with no `-next-` part |
| `Version.VersionAheadOfTag` | adverse.py:143-145 | when the newest tagged commit is non-empty and not HEAD, the version is canonical tag, `-next-`, `commit[:7]`, `-`, date |
| `Version.VersionAheadWithoutTagName` | adverse.py:143-149 | a tagged commit ahead of which HEAD lies, with no tag name, gives `None-next-<commit[:7]>-<YYYYMMDD>` |
| `Version.DirtySuffix` | adverse.py:154-156 | the dirty version is the clean version with `-dirty` appended once at the end |
| `Version.CleanVersionEndingInDirty` | adverse.py:133-156 | a clean tree at a tag named `rc-dirty` gets the version `rc-dirty` |
| `Emitter.ComputeLayout` | adverse.py:171-210 | (`LayoutOf`) branch, commit and repository widths are length plus one; the path width exceeds every dirty path's length, is the longest plus one, and is 1 for a clean tree; `files` has `max(count, 1)` slots, `.count` is the number of dirty entries, the entries are the rendered dirty files in order or the single placeholder, and every written path fits its array |
| `Emitter.WriteDefinitions` | adverse.py:119-169 | the definitions come in the order branch, commit, `GIT_DIRTY` only when dirty, repository, `GIT_TAG` only when there is a tag (with the raw tag), `VERSION_STRING`, each with its value |
| `Emitter.Generate` | adverse.py:115-218 | the header's definitions follow that order with `GIT_DIRTY` exactly when the report has an entry; branch, commit, repository and the raw tag are defined with their values and `VERSION_STRING` as `VersionString` of the query results; the structure has the layout `LayoutOf` of the values and the parsed entries (widths, longest path, `.count`, rendered entries or placeholder), and the file array is never empty |

## Left out

- `Git.run` and the query wrappers (`branch`, `commit`, `last_tagged_commit`, `tag_name`, `worktree`, `root` and its cache): they start a git process and capture its output; their results are parameters.
- The right-strip of git's output in `Git.run`: with `-z` every record ends in NUL, which is not whitespace, so the report reaches the parser unchanged.
- A failing `branch`, `commit` or commit-date query: Python then fails with a type error part-way through writing; the model takes these values as present.
- A failing status query: `split` is then called on `None` and Python raises an attribute error; the model takes the report as present.
- A failing root query: `Path(None)` raises a type error; the model takes the root as present.
- `datetime.fromisoformat`: the commit date is a (year, month, day) triple; years before 1000 are outside the model, because `%Y` pads them differently across platforms.
- `str.isdecimal` is modelled on the ASCII digits `0`-`9` only; other Unicode decimal digits are not.
- `ClangFormat` and `ChangeDirectory`: they launch an external formatter and change the process's working directory.
- Argument parsing, the exit codes and the early return for a path that is not a worktree.
- The literal C text, the header file and its handle: the model keeps the definitions, their order and values, the widths, counts and rendered entries. Paths and values are written without escaping, so the output is not valid C for every input.
- Widths are counted in characters as Python's `len` does; the number of bytes a C compiler needs for a non-ASCII value is not modelled.
- `test.c` is not part of this model: it only prints the generated structure.
