# YANG module-file resolution

A Dafny model of module-file resolution in goyang (`pkg/yang/file.go`): the
search-path registry (`Path`, `pathMap`, `AddPath`) and the resolver
`findFile`, which turns a module name such as `foo` or a file name such as
`sub/foo.yang` into the name and contents of a file.

- `wrappers.dfy` — `Option` and `Result`.
- `gostrings.dfy` — `strings.Index`, `strings.HasSuffix`, `strings.Join` and
  `strings.Split` over `seq<char>`, with Split's edge cases kept: `""` splits
  into `[""]`, and leading, trailing or doubled separators give empty pieces.
- `searchpath.dfy` — the two package globals as an immutable `Registry`
  value (`path: seq<string>`, and `pathMap` as the set of its keys, since the
  source only ever stores `true` in it), the invariant `Valid` tying them
  together, and `AddPath` as a fold of `AddOne` over the `:`-separated
  segments. What `AddPath` appends is also given by an independent
  definition, `FirstAppearances`, and the two are proved equal.
- `resolver.dfy` — `FindFile(env, reg, name)`, returning the result and the
  registry after the call. `Env` holds the file system as a map from name to
  contents (the `readFile` seam) and `path.Dir` and `path.Join` as
  uninterpreted function values, so every property holds for any behaviour of
  those two library functions.

The error message follows the code: it names the *completed* name
(`foo.yang` for a request of `foo`), as written at file.go lines 66 and 75.

## Model

| member | source | states |
|---|---|---|
| GoStrings.IndexOf | pkg/yang/file.go:54 | the result is -1 exactly when the character is absent; otherwise it is the position of its first occurrence |
| GoStrings.Split | pkg/yang/file.go:34 | there is at least one piece, no piece contains the separator, and joining the pieces with the separator gives back the input |
| GoStrings.SplitJoin | pkg/yang/file.go:34 | splitting recovers any non-empty list of separator-free pieces from their join, so Split is the unique such decomposition |
| GoStrings.SplitPair | pkg/yang/file.go:34 | two separator-free names joined by the separator split back into exactly those two names |
| GoStrings.SplitConcat | pkg/yang/file.go:34 | splitting two strings joined by the separator gives the pieces of the first followed by the pieces of the second |
| GoStrings.SplitEmpty | pkg/yang/file.go:34 | the empty string splits into one empty piece, so `AddPath("")` registers `""` |
| GoStrings.SplitKeepsEmptyPieces | pkg/yang/file.go:34 | leading, trailing and doubled colons each produce an empty piece |
| SearchPath.EmptyValid | pkg/yang/file.go:27-29 | the initial empty `Path` and `pathMap` satisfy the registry invariant |
| SearchPath.AddOne | pkg/yang/file.go:35-38 | one loop step only appends, records the directory in `pathMap`, preserves the invariant, and leaves the registry unchanged exactly when the directory is already listed |
| SearchPath.AddAll | pkg/yang/file.go:34-39 | the loop only appends, records every segment in `pathMap`, and never forgets a recorded directory |
| SearchPath.AddAllValid | pkg/yang/file.go:34-39 | the loop preserves the invariant, and the listed directories become the old ones plus the segments |
| SearchPath.AddPath | pkg/yang/file.go:31-40 | the old `Path` is a prefix of the new one, so entries never move or disappear, and every `:`-separated segment, empty ones included, is recorded |
| SearchPath.AddPathValid | pkg/yang/file.go:28-29 | `AddPath` keeps `Path` duplicate-free and in sync with `pathMap`, and adds nothing but the segments of its argument |
| SearchPath.FirstAppearancesElems | pkg/yang/file.go:34-38 | the reference list of appended directories holds exactly the segments not already known |
| SearchPath.FreshInOrderIsFirstAppearances | pkg/yang/file.go:34-38 | taking new segments front to back with a growing seen-set gives the same list as the back-to-front reference definition |
| SearchPath.AddAllAppendsFresh | pkg/yang/file.go:34-39 | on a valid registry the loop appends exactly the segments not yet seen, front to back |
| SearchPath.AddAllAppendsFirstAppearances | pkg/yang/file.go:34-39 | on a valid registry the loop appends exactly the new segments, each once, in order of first appearance |
| SearchPath.AddPathAppendsFirstAppearances | pkg/yang/file.go:31-40 | on a valid registry `AddPath` appends exactly the segments not yet present, each once, in order of first appearance |
| SearchPath.AddPathIdempotent | pkg/yang/file.go:33-40 | calling `AddPath` twice with the same argument gives the same state as calling it once |
| SearchPath.AddPathPair | pkg/yang/file.go:33-40 | registering `x:y` appends `x` unless listed, then `y` unless listed or equal to `x` |
| SearchPath.AddPathExample | pkg/yang/file.go:31-40 | registering `a:b` and then `b:c` on a fresh registry gives `[a, b, c]` for any three distinct colon-free names |
| SearchPath.AddAllConcat | pkg/yang/file.go:34-39 | running the loop over one list of segments and then another is the same as running it once over both |
| SearchPath.AddPathConcat | pkg/yang/file.go:31-40 | registering `p` and then `q` gives exactly the same state as registering `p:q` in one call, so the final list depends only on the order of the directories, not on how they were grouped into calls |
| SearchPath.AddPathEmptyString | pkg/yang/file.go:34-38 | `AddPath("")` lists the empty directory name, appending it only if absent |
| Resolver.CompleteName | pkg/yang/file.go:54-58 | the completed name extends the name, contains `/` exactly when the name does, ends in `.yang` when the name has no `/`, and is the name itself for a path or a name already ending in `.yang` |
| Resolver.CompleteNameAppendsExactly | pkg/yang/file.go:54-58 | `.yang` is appended if and only if the name has no `/` and does not end in `.yang`; otherwise the name is unchanged |
| Resolver.CompleteNameIdempotent | pkg/yang/file.go:45-58 | completing an already completed name changes nothing |
| Resolver.SearchDirs | pkg/yang/file.go:69-74 | the search fails exactly when no directory joined with the name is readable, and otherwise returns the joined name and contents for the first directory that is |
| Resolver.FindFile | pkg/yang/file.go:53-76 | `Path` only grows, the invariant is preserved, a success returns a readable file with its contents, and a failure leaves the registry unchanged with the message `no such file: ` plus the completed name |
| Resolver.WorkingDirectoryFirst | pkg/yang/file.go:60-63 | if the completed name is readable it is returned with its contents whatever `Path` holds, and the new registry is `AddPath` of its `path.Dir` |
| Resolver.ExplicitPathNoFallback | pkg/yang/file.go:64-66 | a name containing `/` that cannot be read fails at once naming the name, the registry is unchanged, and the result does not depend on the registry |
| Resolver.SearchFirstMatch | pkg/yang/file.go:69-73 | a bare name not in the working directory resolves to the joined name in the first registered directory that has it, without changing the registry |
| Resolver.FailsExactly | pkg/yang/file.go:64-75 | resolution fails if and only if the direct read fails and either the name contains `/` or no registered directory has the file; the failure names the completed name and leaves the registry unchanged |
| Resolver.ExtensionInferred | pkg/yang/file.go:45-58 | a bare name without `.yang` resolves exactly as the same name with `.yang` appended, registry included |
| Resolver.SiblingFoundAfterRegistration | pkg/yang/file.go:60-73 | after a file is found in the working directory, a bare sibling module in that file's directory is found by the next resolution |

## Left out

- File I/O: `ioutil.ReadFile` is replaced by a map from file name to contents; every failed read (missing file, permission denied) is one absent key.
- `path.Dir` and `path.Join`: their path-cleaning semantics are not modelled; they are function values in `Env`, and properties are stated relative to them (so, for instance, that a bare name registers `"."` is not derived).
- `fmt.Errorf`: the error is the message string itself.
- The `[]byte` to `string` conversion: contents are strings from the start, and characters stand for bytes in `IndexOf`, `HasSuffix` and `Split`.
- Concurrency: the globals have no locking in the source, so only sequential calls are modelled; the globals become an explicit `Registry` value passed in and returned.
- `pathMap`: modelled as the set of its keys; the source never stores `false`, so a Go lookup is true exactly for the stored keys.
- `Path` is an exported variable that callers may change directly; the model assumes the registry invariant (`Valid`) where a property needs `Path` and `pathMap` in sync rather than modelling such writes.
- Resolver.SiblingFoundAfterRegistration: requires the found file's directory to contain no `:`, because `AddPath` would split such a directory into pieces; the split case is covered by Resolver.WorkingDirectoryFirst together with SearchPath.AddPath.
