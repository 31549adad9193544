/** The slice of an SCons construction environment that the perl5 tool
    reads: a map from variable names to values, where a value is either a
    plain string or a list of strings, together with the outcomes of
    looking a variable up. */
module ConstructionEnv {

  /** A construction variable's value. Items of a list are held already
      converted with `str()`, which is how the tool uses them. */
  datatype Value = Str(s: string) | List(items: seq<string>)

  type Env = map<string, Value>

  /** Why building an argument vector fails: `env[key]` on a missing key
      (KeyError), `source[0]` or `target[0]` on an empty node list
      (IndexError), or a variable that must be a single string and is not. */
  datatype Error =
    | MissingKey(key: string)
    | NotAString(key: string)
    | NoSource
    | NoTarget

  datatype Option<+T> = None | Some(value: T)

  datatype Result<+T> = Ok(value: T) | Err(error: Error)

  /** The strings a Python `for` loop yields over a value: the items of a
      list, or the one-character strings of a plain string. */
  function Items(v: Value): seq<string>
  {
    match v
    case List(xs) => xs
    case Str(s) => seq(|s|, i requires 0 <= i < |s| => [s[i]])
  }

  /** `env.get(key)` used where a single string is expected. */
  function StringAt(env: Env, key: string): (r: Result<string>)
    ensures r.Ok? <==> key in env && env[key].Str?
    ensures key !in env ==> r == Err(MissingKey(key))
    ensures key in env && env[key].List? ==> r == Err(NotAString(key))
    ensures r.Ok? ==> r.value == env[key].s
  {
    if key !in env then Err(MissingKey(key))
    else match env[key]
      case Str(s) => Ok(s)
      case List(_) => Err(NotAString(key))
  }
}
