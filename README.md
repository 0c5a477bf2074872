# Star Shell: a Dafny model of its package manager and command dispatch

Star Shell is a small interactive shell with a built-in package manager,
`star`. The package manager fetches the latest GitHub release of a
`user/repo` project. From that release it picks the asset whose name matches
the running platform (`<os>-<arch>`, for example `linux-amd64`) and
downloads it into the install directory `./stars`. It then records the
package in the manifest `./stars/.stars`. The manifest is a JSON list of
`{user, repo, version, file}` records. The package manager has four
operations: Install, ListInstalledStars, Uninstall and Update. The shell
reads a line, splits it into words, expands an alias and runs one of its
built-ins (`cd`, `ls`/`dir`, `clear`/`cls`, `star`) or an external program.

This project models both parts:

- `gostrings.dfy` (module `GoStrings`) models the functions of Go's
  `strings` package that the code calls: `ToLower`, `Contains`,
  `HasPrefix`, `TrimPrefix`, `Fields` and `Split`. `Join` is a helper that
  states the round trips of `Fields` and `Split`. The code itself does not
  call `strings.Join`.
- `star.dfy` (module `Star`) models the package manager.
  - The state is a `Disk`. It holds the manifest, which is `Missing`,
    `Unreadable` (the file exists but does not decode) or
    `Present(records)`, and the set of file names in the install
    directory.
  - Each input from the outside world is a parameter: the release response,
    and the outcomes of creating the directory, downloading the file,
    removing it and writing the manifest.
  - `InstallOn`, `UninstallOn` and `UpdateOn` give each operation as a
    function of the disk before it. Their contracts state what the
    operation promises.
  - The class `Stars` holds the same state as mutable fields. Its methods
    follow the Go control flow step by step, including the asset loop, the
    first-match loop and the filter loop. Each method is proved equal to its
    function.
- `starshell.dfy` (module `Shell`) models the parsing and dispatch part of
  `executeCommand` as the pure function `Dispatch`. It returns a `Command`
  variant. The environment variables and the alias and colour maps are
  parameters.
- `wrappers.dfy` holds `Option` and `Result`.

Two behaviours of the code are easy to misread:

- A missing manifest file is an error when listing and when uninstalling:
  `ListInstalledStars` and `Uninstall` return the file-open error
  (`Load(Missing) == Failure(ManifestMissing)`). Only the append in
  `updateStarsFile` treats a missing manifest as empty.
- `getPlatform` always returns `GOOS-GOARCH`, so Install's
  `"unknown-unknown"` check can only fire for the pair (`unknown`,
  `unknown`) (`UnknownPlatformOnlyForUnknownPair`). The model takes the
  platform token as a parameter.

## Model

| member | source | states |
|---|---|---|
| GoStrings.ToLower | star/star.go:59 | Lower-casing maps each ASCII capital to its small letter, keeps every other character and keeps the length. |
| GoStrings.ToLowerKeepsLowerCase | star/star.go:59 | A name without capitals is unchanged by lower-casing. |
| GoStrings.TrimPrefix | starshell.go:95 | When the prefix is present, prefix + result is the input. Otherwise the input is returned unchanged. |
| GoStrings.ContainsIff | star/star.go:59 | `strings.Contains(s, sub)` holds exactly when `sub` occurs at some index of `s`. |
| GoStrings.NotContainsMissingChar | star/star.go:59 | A token containing a character that the name lacks does not occur in the name. |
| GoStrings.Fields | starshell.go:209 | Every word that `strings.Fields` returns is non-empty and free of white space (FieldsAtSpace states where the words split). |
| GoStrings.FieldsKeepNonSpace | starshell.go:209 | Concatenating the words gives the input with exactly its white space removed, in order. |
| GoStrings.FieldsAtSpace | starshell.go:209 | Every white-space character separates fields: the fields of a + [c] + b, for a space c, are the fields of a followed by the fields of b. With the empty case and FieldsOfJoin this determines `strings.Fields` on every line. |
| GoStrings.FieldsOfJoin | starshell.go:209 | Joining words with single spaces and splitting the line again gives the same words back. |
| GoStrings.Split | starshell.go:257 | Splitting on "/" gives at least one part. No part contains "/". There is exactly one part iff the input has no "/". Joining the parts with "/" rebuilds the input. |
| GoStrings.SplitOfJoin | starshell.go:257 | Splitting a join of "/"-free parts gives those parts back. |
| Star.GetPlatform | star/star.go:88-94 | The token is the OS name, a hyphen, then the architecture. |
| Star.UnknownPlatformOnlyForUnknownPair | star/star.go:28-31 | For a hyphen-free OS name, the token is "unknown-unknown" iff both names are "unknown". |
| Star.FirstIndex | star/star.go:57-64 | Returns the lowest index whose element satisfies the test, or None when no element does. |
| Star.SelectAsset | star/star.go:57-64 | The chosen asset is the first one in order whose lower-cased name contains the platform token. None means no asset matches. |
| Star.Resolve | star/star.go:28-68 | Covers the platform check, then a transport error, a non-200 status and an undecodable body. On success it returns the release tag and the first matching asset, and that asset has a non-empty URL. If the first match has an empty URL, the result is "no compatible release", even when a later asset also matches. |
| Star.ExampleSelection | star/star.go:57-64 | With assets tool-darwin-amd64 and tool-linux-amd64, linux-amd64 selects the second asset and linux-386 selects none. |
| Star.Load | star/star.go:134-147 | Listing succeeds exactly when the manifest decodes. A missing manifest gives the not-exist error. An undecodable one gives a decode error. |
| Star.AppendRecord | star/star.go:123-131 | An undecodable manifest stops the update. Otherwise a missing manifest counts as empty and the new record is appended at the end. On failure the manifest is either unchanged or no longer decodes. |
| Star.InstallOn | star/star.go:27-85 | A failure before the download changes nothing. Install never removes files and adds only the selected asset's file. Once that file is written, fully or partly, it stays, even when the manifest write then fails. The manifest changes only after a complete download. A failed Install records nothing: the manifest is as before, or undecodable after a failed write. On success exactly one record (user, repo, tag, asset name) is appended, with no duplicate check. |
| Star.FindInstalled | star/star.go:179-185 | Returns the index of the first record with the given (user, repo), or None when there is none. |
| Star.Without | star/star.go:197-202 | The result holds exactly the records that are not for (user, repo), and is no longer than the input. |
| Star.WithoutAppend | star/star.go:197-202 | Filtering distributes over concatenation, so the records kept stay in their original order. |
| Star.WithoutNoMatch | star/star.go:197-202 | With no record for (user, repo), filtering changes nothing. |
| Star.UninstallOn | star/star.go:171-209 | A missing or undecodable manifest is an error and changes nothing. An unknown package gives PackageNotFound and changes nothing. Only the file of the first matching record can be removed. If that removal fails, the disk and the manifest are unchanged and the error names the file. A removal that succeeds is kept even when the manifest write after it fails. The manifest is rewritten only after the removal, and a failed write leaves it as before or undecodable. On success every matching record is dropped and the rest keep their order. |
| Star.UpdateOn | star/star.go:212-217 | If Uninstall fails, Install is not attempted and the error is wrapped. Otherwise the result is Install applied to the disk that Uninstall left. |
| Star.InstallListsOneRecord | star/star.go:80-82 | After a successful Install of a package that was not listed, the list is the old one plus the new record at the end. That record is the only one with its identity. |
| Star.InstallThenUninstall | star/star.go:171-209 | Install followed by Uninstall of a new package, both succeeding, leaves the install directory as it was and lists the records listed before. On a fresh disk with no manifest file, the list is then empty. |
| Star.InstallThenUninstallRestores | star/star.go:171-209 | When the manifest file already exists, Install followed by Uninstall of a new package restores the disk exactly. |
| Star.UninstallStuckAfterFailedWrite | star/star.go:192-206 | If the file is removed but the manifest cannot be created, the record stays while the file is gone. Every later Uninstall of that package fails at the removal and changes nothing. |
| Star.UpdateFailureLeavesAbsent | star/star.go:212-217 | When the Install step of Update fails, no record for the package remains. When Install stopped before downloading, the old file is gone as well. There is no rollback. |
| Star.UninstallOrphansDuplicateFile | star/star.go:179-206 | When two records share an identity, Uninstall drops both records but deletes only the first one's file. The second file is left with no record. |
| Star.Stars.ListInstalledPackages | star/star.go:134-147 | Reads the manifest field. The result is the decoded list, the not-exist error or the decode error. |
| Star.Stars.ListInstalledStars | star/star.go:165-167 | Listing is exactly listInstalledPackages. |
| Star.Stars.SaveInstalledPackages | star/star.go:150-162 | The manifest becomes the given list. If the file cannot be created it is unchanged. If writing fails after truncation it is undecodable. |
| Star.Stars.UpdateStarsFile | star/star.go:123-131 | Read, append and write back, as AppendRecord states. |
| Star.Stars.DownloadExecutable | star/star.go:97-120 | A request failure or create failure leaves the directory unchanged. A failed copy leaves a partial file. Success adds the file. |
| Star.Stars.Install | star/star.go:27-85 | The imperative Install, including the first-match asset loop, equals InstallOn of the old state. |
| Star.Stars.RemainingPackages | star/star.go:196-202 | The append loop builds exactly Without(packages, user, repo). |
| Star.Stars.Uninstall | star/star.go:171-209 | The imperative Uninstall, with its find loop and filter loop, equals UninstallOn of the old state. |
| Star.Stars.Update | star/star.go:212-217 | The imperative Update equals UpdateOn of the old state. |
| Shell.HomeDirectory | starshell.go:195-206 | Returns HOME if it is set, else USERPROFILE if it is set, else "." — so the result is never empty. |
| Shell.ReplaceHomeWithTilde | starshell.go:89-98 | A path under home becomes "~" + rest, and home + rest gives the path back. Other paths are unchanged. With both variables empty, every path gets a "~" prefix. |
| Shell.GetColor | starshell.go:53-58 | Returns the configured colour when the key is present and the fallback otherwise. |
| Shell.Arguments | starshell.go:209-217 | The words of the line. If the first word is an alias, its value's words replace it once (no second lookup) and the other words follow in order. |
| Shell.CdTarget | starshell.go:221-227 | `cd` with no argument goes to ".". An argument of exactly "~" goes to the home directory. Any other argument is used as given. |
| Shell.RepoPackage | starshell.go:255-257 | An argument with a "/" gives User = the part before the first "/" and Repo = the next part. Without a "/" there is no package (the Go code indexes out of range). |
| Shell.StarCommand | starshell.go:243-291 | A missing subcommand and an unknown subcommand (anything but install, list, uninstall; there is no `update`) are usage errors. `install` or `uninstall` without a repository is a missing-repository usage error. A repository without "/" panics, and one with "/" requests RepoPackage of it, for install or uninstall as asked. `list` lists. |
| Shell.Dispatch | starshell.go:208-303 | A blank line does nothing. An alias that expands to no words, used with no other words, panics. `cd` changes to CdTarget, `ls`/`dir` lists the directory, `clear`/`cls` clears the screen and `star` runs StarCommand. Built-ins never reach the launcher, and every other first word runs externally with the remaining words as arguments. |
| Shell.StarLineNamesPackage | starshell.go:249-286 | `star install u/r` and `star uninstall u/r` (with "star" not aliased) ask the package manager about Package(u, r). |
| Shell.StarLineWithoutSlashPanics | starshell.go:255-257 | `star install x` with no "/" in x panics. |
| Shell.BlankLineIsNoOp | starshell.go:209-212 | A line made only of white space does nothing. |

## Left out

- HTTP requests and response streaming: the release response and the
  download outcome are inputs. Request URLs and status codes of the
  download are not modelled beyond success or failure.
- JSON encoding and decoding of the release document and the manifest: the
  manifest is a decoded list or `Unreadable`. A nil list, which encodes as
  `null`, reads back as the empty list, so it is `Present([])`.
- The file system is reduced to a set of file names plus outcome flags.
  File contents are not modelled, so overwriting an existing file is not
  observable. The same goes for a leftover directory from a failed
  `MkdirAll`.
- `filepath.Join` path cleaning is not modelled: asset names are used as
  plain file names. The one exception is the empty name, which names the
  install directory itself. An asset named `.stars` would overwrite the
  manifest, and the model keeps the two apart.
- `runtime.GOOS`/`GOARCH` detection: the platform token is a parameter.
- Error message texts and their wrapping prefixes: errors are kinds. Only
  Update's wrapping of an Uninstall error is kept.
- Unicode case folding in `strings.ToLower`: only ASCII letters are
  lowered.
- The shell's I/O: the read loop in `main`, `LoadConfig`, `generatePrompt`
  (clock, user, host, ANSI colours), `customLs`, `getFileColor`,
  `isExecutable`, `clearScreen`, `changeDirectory` and running external
  programs. `Dispatch` returns the command these would act on.
- Messages printed before a command runs (such as "Installing ..." before a
  panic) and the formatting of `star list` output.
- Concurrency: there is none in the code.
