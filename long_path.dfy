/**
 * Win32 long-path prefixing (`make_long_path` in compare_engine.py,
 * config_env.py and compareset_env.py). `os.path.abspath` depends on the
 * working directory and the platform, so it is a parameter.
 */
module LongPath {
  import opened Text

  /** The `\\?\` prefix. */
  const LongPrefix: string := "\\\\?\\"
  /** The `\\?\UNC` prefix that replaces the leading `\\` of a UNC path. */
  const UncPrefix: string := "\\\\?\\UNC"
  /** The `\\` that starts a UNC path. */
  const UncStart: string := "\\\\"

  /** The prefixing applied to an absolute path. */
  function Prefixed(abs: string): (r: string)
    ensures StartsWith(r, LongPrefix)
  {
    if StartsWith(abs, LongPrefix) then abs
    else if StartsWith(abs, UncStart) then UncPrefix + abs[1..]
    else LongPrefix + abs
  }

  /** `make_long_path` of compare_engine.py and config_env.py. */
  function MakeLongPath(path: string, absPath: string -> string): string {
    Prefixed(absPath(path))
  }

  /** `make_long_path` of compareset_env.py: the empty path stays empty. */
  function MakeLongPathEnv(path: string, absPath: string -> string): string {
    if path == "" then "" else Prefixed(absPath(path))
  }

  /**
   * An already prefixed path is kept, a UNC path `\\host\share` becomes
   * `\\?\UNC\host\share`, and any other path gets `\\?\` in front.
   */
  lemma PrefixedCases(abs: string)
    ensures StartsWith(abs, LongPrefix) ==> Prefixed(abs) == abs
    ensures !StartsWith(abs, LongPrefix) && StartsWith(abs, UncStart) ==>
              Prefixed(abs) == "\\\\?\\UNC\\" + abs[2..]
    ensures !StartsWith(abs, LongPrefix) && !StartsWith(abs, UncStart) ==> Prefixed(abs) == LongPrefix + abs
  {
    if !StartsWith(abs, LongPrefix) && StartsWith(abs, UncStart) {
      assert abs[1..] == "\\" + abs[2..];
    }
  }

  /** Prefixing a prefixed path changes nothing. */
  lemma PrefixedIdempotent(abs: string)
    ensures Prefixed(Prefixed(abs)) == Prefixed(abs)
  {
  }

  /**
   * When `abspath` leaves prefixed paths alone (they are already absolute),
   * both versions of `make_long_path` are idempotent.
   */
  lemma MakeLongPathIdempotent(path: string, absPath: string -> string)
    requires forall p :: StartsWith(p, LongPrefix) ==> absPath(p) == p
    ensures MakeLongPath(MakeLongPath(path, absPath), absPath) == MakeLongPath(path, absPath)
    ensures MakeLongPathEnv(MakeLongPathEnv(path, absPath), absPath) == MakeLongPathEnv(path, absPath)
  {
  }

  /** The compareset_env.py version differs from the other only on the empty path. */
  lemma EnvAgrees(path: string, absPath: string -> string)
    ensures path != "" ==> MakeLongPathEnv(path, absPath) == MakeLongPath(path, absPath)
    ensures MakeLongPathEnv("", absPath) == ""
  {
  }
}
