/**
 * `getenv`, `get_home` and `expand_user`. The process environment is a
 * parameter: a map from variable names to values. Paths are strings;
 * `fs::path::concat` appends without a separator, as string concatenation.
 * The constants are those of the Linux branch.
 */
module Sys {
  import opened Wrappers

  type Env = map<string, string>

  /** The name a C string spells: everything before its first NUL. */
  function CName(s: string): (r: string)
    ensures |r| <= |s| && r == s[..|r|]
    ensures '\0' !in r
    ensures |r| < |s| ==> s[|r|] == '\0'
  {
    if s == [] || s[0] == '\0' then [] else [s[0]] + CName(s[1..])
  }

  /**
   * `getenv(name)`: refuses a name whose last character is not NUL, so that
   * the C lookup cannot run past its end; otherwise the value of the
   * variable the C string names, if it is set.
   */
  function Getenv(name: string, env: Env): (r: Option<string>)
    requires |name| > 0
    ensures name[|name| - 1] != '\0' ==> r == None
    ensures name[|name| - 1] == '\0' ==> (r.Some? <==> CName(name) in env)
    ensures r.Some? ==> CName(name) in env && r.value == env[CName(name)]
  {
    if name[|name| - 1] != '\0' then None
    else if CName(name) in env then Some(env[CName(name)])
    else None
  }

  /** A name followed by its terminating NUL is looked up as itself. */
  lemma CNameTerminated(name: string)
    requires '\0' !in name
    ensures CName(name + "\0") == name
  {
    if name != [] {
      assert (name + "\0")[1..] == name[1..] + "\0";
      CNameTerminated(name[1..]);
    }
  }

  lemma GetenvTerminated(name: string, env: Env)
    requires '\0' !in name
    ensures Getenv(name + "\0", env) == if name in env then Some(env[name]) else None
  {
    CNameTerminated(name);
  }

  /** `HOMEDIR_VAR`, `USERNAME_VAR` and `HOMEPATH`, as the `sv` literals spell them. */
  const HomeVar: string := "HOME"
  const UserVar: string := "USER"
  const HomePath: string := "/home/"

  /** The fallback chain of `get_home`, for given names of the two variables. */
  function HomeFrom(homeVar: string, userVar: string, env: Env): (r: string)
    requires |homeVar| > 0 && |userVar| > 0
    ensures Getenv(homeVar, env).Some? ==> r == Getenv(homeVar, env).value
    ensures Getenv(homeVar, env).None? && Getenv(userVar, env).Some? ==> r == HomePath + Getenv(userVar, env).value
    ensures Getenv(homeVar, env).None? && Getenv(userVar, env).None? ==> r == "~"
  {
    match Getenv(homeVar, env)
    case Some(home) => home
    case None =>
      match Getenv(userVar, env)
      case Some(user) => HomePath + user
      case None => "~"
  }

  /**
   * The body of `get_home()`: starts from an empty path and appends to it
   * with `concat`, one piece per step, following the fallback chain.
   */
  method AssembleHome(homeVar: string, userVar: string, env: Env) returns (tmp: string)
    requires |homeVar| > 0 && |userVar| > 0
    ensures tmp == HomeFrom(homeVar, userVar, env)
  {
    tmp := [];
    var homedir := Getenv(homeVar, env);
    if homedir.Some? {
      tmp := tmp + homedir.value;
    } else {
      var username := Getenv(userVar, env);
      if username.Some? {
        tmp := tmp + HomePath;
        tmp := tmp + username.value;
      } else {
        tmp := tmp + "~";
      }
    }
  }

  /**
   * `get_home()` as written. The names are `sv` literals with no
   * terminating NUL, so `getenv` refuses both and the answer is "~"
   * whatever the environment holds.
   */
  function GetHome(env: Env): (r: string)
    ensures r == "~"
  {
    assert Getenv(HomeVar, env) == None;
    assert Getenv(UserVar, env) == None;
    HomeFrom(HomeVar, UserVar, env)
  }

  /** With the environment {HOME: "/root"}, `get_home` still answers "~". */
  lemma GetHomeFinding()
    ensures GetHome(map["HOME" := "/root"]) == "~"
    ensures GetHome(map["HOME" := "/root"]) != "/root"
  {
  }

  /** `get_home()` with NUL-terminated names: HOME, then "/home/" and USER, then "~". */
  function GetHomeFixed(env: Env): (r: string)
    ensures HomeVar in env ==> r == env[HomeVar]
    ensures HomeVar !in env && UserVar in env ==> r == HomePath + env[UserVar]
    ensures HomeVar !in env && UserVar !in env ==> r == "~"
  {
    GetenvTerminated(HomeVar, env);
    GetenvTerminated(UserVar, env);
    HomeFrom(HomeVar + "\0", UserVar + "\0", env)
  }

  /**
   * `expand_user(path)` given the home directory: a leading "~/" becomes
   * the home directory followed by the rest from the '/'; anything else,
   * including a path shorter than two characters, is returned unchanged.
   */
  function ExpandUserWith(path: string, home: string): (r: string)
    ensures |path| < 2 ==> r == path
    ensures |path| >= 2 && path[..2] == "~/" ==> r == home + path[1..]
    ensures !(|path| >= 2 && path[..2] == "~/") ==> r == path
  {
    if |path| < 2 then path
    else if path[0] == '~' && path[1] == '/' then home + path[1..]
    else path
  }

  /**
   * `expand_user(path)` as written: since `get_home` is "~", every path
   * comes back unchanged.
   */
  function ExpandUser(path: string, env: Env): (r: string)
    ensures r == path
  {
    if |path| >= 2 && path[0] == '~' && path[1] == '/' then
      assert path == "~" + path[1..];
      ExpandUserWith(path, GetHome(env))
    else
      ExpandUserWith(path, GetHome(env))
  }

  /**
   * `expand_user(path)` over the corrected `get_home`: with HOME set, "~/x"
   * expands to HOME followed by "/x"; a path not starting "~/" is kept.
   */
  function ExpandUserFixed(path: string, env: Env): (r: string)
    ensures HomeVar in env && |path| >= 2 && path[..2] == "~/" ==> r == env[HomeVar] + path[1..]
    ensures !(|path| >= 2 && path[..2] == "~/") ==> r == path
  {
    ExpandUserWith(path, GetHomeFixed(env))
  }

  /** Expanding an already expanded path changes nothing when HOME does not start with "~/". */
  lemma ExpandUserFixedIdempotent(path: string, env: Env)
    requires HomeVar in env && |env[HomeVar]| >= 1 && env[HomeVar][0] != '~'
    ensures ExpandUserFixed(ExpandUserFixed(path, env), env) == ExpandUserFixed(path, env)
  {
  }
}
