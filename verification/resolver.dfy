/**
 * `findFile` of pkg/yang/file.go: turn a module name or file name into the
 * name and contents of a .yang file, first in the working directory and then
 * in each directory of the search path, registering the directory of a file
 * found in the working directory.
 *
 * The file system is a map from file name to contents (the `readFile` seam);
 * Go's `path.Dir` and `path.Join` are left uninterpreted as fields of `Env`,
 * so every property holds whatever those two functions do.
 */
module Resolver {
  import opened Wrappers
  import opened GoStrings
  import opened SearchPath

  /** The extension of a YANG module file. */
  const Extension := ".yang"

  /** The prefix of the one error message `findFile` produces. */
  const NoSuchFile := "no such file: "

  /** What `findFile` reads and calls: the files, `path.Dir` and `path.Join`. */
  datatype Env = Env(files: map<string, string>, dir: string -> string, join: (string, string) -> string)

  /** A resolved file: the name it was read under and its contents. */
  datatype Found = Found(name: string, data: string)

  /** The result of `findFile` together with the registry after the call. */
  datatype Resolution = Resolution(result: Result<Found, string>, reg: Registry)

  /** `readFile`: the contents of a file, or nothing when it cannot be read. */
  function ReadFile(env: Env, name: string): (r: Option<string>)
    ensures r.Some? <==> name in env.files
    ensures r.Some? ==> r.value == env.files[name]
  {
    if name in env.files then Some(env.files[name]) else None
  }

  /** The reference names an explicit path: it contains a '/'. */
  predicate HasSlash(name: string) {
    '/' in name
  }

  /**
   * Extension inference: ".yang" is appended to a name that contains no '/'
   * and does not already end in ".yang"; any other name is kept as it is.
   */
  function CompleteName(name: string): (c: string)
    ensures name <= c
    ensures HasSlash(c) <==> HasSlash(name)
    ensures !HasSlash(name) ==> HasSuffix(c, Extension)
    ensures HasSlash(name) || HasSuffix(name, Extension) ==> c == name
  {
    if IndexOf(name, '/') < 0 && !HasSuffix(name, Extension) then
      var c := name + Extension;
      assert c[|c| - |Extension|..] == Extension;
      c
    else name
  }

  /** The completed name gains ".yang" exactly when the name has no '/' and lacks the extension. */
  lemma CompleteNameAppendsExactly(name: string)
    ensures CompleteName(name) == name + Extension <==> !HasSlash(name) && !HasSuffix(name, Extension)
    ensures CompleteName(name) == name <==> HasSlash(name) || HasSuffix(name, Extension)
  {
  }

  /** Completing a completed name changes nothing. */
  lemma CompleteNameIdempotent(name: string)
    ensures CompleteName(CompleteName(name)) == CompleteName(name)
  {
  }

  /** A file is found when `dir` joined with `name` is a readable file. */
  predicate HitIn(env: Env, dir: string, name: string) {
    env.join(dir, name) in env.files
  }

  /** `dirs[i]` is the first directory of `dirs` in which `name` is found. */
  predicate FirstHit(env: Env, dirs: seq<string>, name: string, i: int) {
    && 0 <= i < |dirs|
    && HitIn(env, dirs[i], name)
    && forall j | 0 <= j < i :: !HitIn(env, dirs[j], name)
  }

  /**
   * The loop over `Path`: read `path.Join(dir, name)` for each directory in
   * order and return the first file that can be read.
   */
  function SearchDirs(env: Env, dirs: seq<string>, name: string): (r: Option<Found>)
    ensures r.None? <==> forall i | 0 <= i < |dirs| :: !HitIn(env, dirs[i], name)
    ensures r.Some? ==> exists i :: (FirstHit(env, dirs, name, i)
      && r.value == Found(env.join(dirs[i], name), env.files[env.join(dirs[i], name)]))
    decreases |dirs|
  {
    if |dirs| == 0 then None
    else
      var n := env.join(dirs[0], name);
      match ReadFile(env, n)
      case Some(data) =>
        assert FirstHit(env, dirs, name, 0);
        Some(Found(n, data))
      case None =>
        var r := SearchDirs(env, dirs[1..], name);
        assert forall i | 1 <= i < |dirs| :: dirs[1..][i - 1] == dirs[i];
        if r.Some? then
          var k :| FirstHit(env, dirs[1..], name, k)
            && r.value == Found(env.join(dirs[1..][k], name), env.files[env.join(dirs[1..][k], name)]);
          assert FirstHit(env, dirs, name, k + 1);
          r
        else r
  }

  /**
   * `findFile(name)`: complete the name, read it in the working directory
   * (registering its directory with `AddPath` on success), fail at once for
   * an explicit path, and otherwise search the registered directories in order.
   */
  function FindFile(env: Env, reg: Registry, name: string): (out: Resolution)
    ensures reg.path <= out.reg.path
    ensures Valid(reg) ==> Valid(out.reg)
    ensures out.result.Success? ==>
      out.result.value.name in env.files && out.result.value.data == env.files[out.result.value.name]
    ensures out.result.Failure? ==>
      out.reg == reg && out.result.error == NoSuchFile + CompleteName(name)
  {
    var slash := IndexOf(name, '/');
    var full := CompleteName(name);
    match ReadFile(env, full)
    case Some(data) =>
      AddPathValid(reg, env.dir(full));
      Resolution(Success(Found(full, data)), AddPath(reg, env.dir(full)))
    case None =>
      if slash >= 0 then Resolution(Failure(NoSuchFile + full), reg)
      else
        match SearchDirs(env, reg.path, full)
        case Some(f) => Resolution(Success(f), reg)
        case None => Resolution(Failure(NoSuchFile + full), reg)
  }

  // ---------------------------------------------------------------------
  // The branches of findFile, each stated for all inputs.

  /**
   * Working-directory priority: when the completed name can be read directly
   * it is returned, whatever the search path holds, and its directory is
   * registered exactly as `AddPath(path.Dir(name))` would.
   */
  lemma WorkingDirectoryFirst(env: Env, reg: Registry, name: string)
    requires CompleteName(name) in env.files
    ensures FindFile(env, reg, name) == Resolution(
      Success(Found(CompleteName(name), env.files[CompleteName(name)])),
      AddPath(reg, env.dir(CompleteName(name))))
  {
  }

  /**
   * An explicit path that cannot be read fails with an error naming the
   * completed name; the search path is neither read nor changed.
   */
  lemma ExplicitPathNoFallback(env: Env, reg: Registry, other: Registry, name: string)
    requires HasSlash(name)
    requires CompleteName(name) !in env.files
    ensures FindFile(env, reg, name) == Resolution(Failure(NoSuchFile + name), reg)
    ensures FindFile(env, other, name).result == FindFile(env, reg, name).result
  {
  }

  /**
   * Search order: a bare name not in the working directory resolves to the
   * first registered directory that has it, and the registry is unchanged.
   */
  lemma SearchFirstMatch(env: Env, reg: Registry, name: string, i: int)
    requires !HasSlash(name)
    requires CompleteName(name) !in env.files
    requires FirstHit(env, reg.path, CompleteName(name), i)
    ensures FindFile(env, reg, name) == Resolution(
      Success(Found(env.join(reg.path[i], CompleteName(name)),
                    env.files[env.join(reg.path[i], CompleteName(name))])),
      reg)
  {
    var full := CompleteName(name);
    var r := SearchDirs(env, reg.path, full);
    assert r.Some?;
    var k :| FirstHit(env, reg.path, full, k)
      && r.value == Found(env.join(reg.path[k], full), env.files[env.join(reg.path[k], full)]);
    assert k == i;
  }

  /**
   * Total failure, both directions: `findFile` fails exactly when the direct
   * read fails and either the name is an explicit path or no registered
   * directory has the file; the error names the completed name.
   */
  lemma FailsExactly(env: Env, reg: Registry, name: string)
    ensures FindFile(env, reg, name).result.Failure? <==>
      && CompleteName(name) !in env.files
      && (HasSlash(name) || forall i | 0 <= i < |reg.path| :: !HitIn(env, reg.path[i], CompleteName(name)))
    ensures FindFile(env, reg, name).result.Failure? ==>
      FindFile(env, reg, name) == Resolution(Failure(NoSuchFile + CompleteName(name)), reg)
  {
  }

  /** A bare module name resolves exactly as the same name with ".yang" appended. */
  lemma ExtensionInferred(env: Env, reg: Registry, name: string)
    requires !HasSlash(name)
    requires !HasSuffix(name, Extension)
    ensures FindFile(env, reg, name) == FindFile(env, reg, name + Extension)
  {
    var c := name + Extension;
    assert c[|c| - |Extension|..] == Extension;
    assert !HasSlash(c);
  }

  /**
   * Auto-registration: after a file is found in the working directory, a
   * sibling module in that file's directory is found by its bare name,
   * provided the directory name has no ':' for `AddPath` to split on.
   */
  lemma SiblingFoundAfterRegistration(env: Env, reg: Registry, name: string, sibling: string)
    requires Valid(reg)
    requires CompleteName(name) in env.files
    requires Separator !in env.dir(CompleteName(name))
    requires !HasSlash(sibling)
    requires HitIn(env, env.dir(CompleteName(name)), CompleteName(sibling))
    ensures FindFile(env, FindFile(env, reg, name).reg, sibling).result.Success?
  {
    var d := env.dir(CompleteName(name));
    var after := FindFile(env, reg, name).reg;
    assert after == AddPath(reg, d);
    assert Split(d, Separator) == [d];
    assert Seen(after, d) && Valid(after);
    assert d in Elems(after.path);
    var i :| 0 <= i < |after.path| && after.path[i] == d;
    assert HitIn(env, after.path[i], CompleteName(sibling));
    FailsExactly(env, after, sibling);
  }
}
