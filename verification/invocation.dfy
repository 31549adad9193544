/** The argument vectors the three perl5 builders hand to the process
    spawner: `perl`, one `-I` flag per `PERL5LIB` entry, then a suffix that
    depends on the builder. Every failure the Python code raises while
    building a vector (a missing variable, an empty source list) is an `Err`
    here, reported in the order Python evaluates the expression. */
module Invocation {
  import opened ConstructionEnv
  import opened Paths

  const Perl := "perl"

  /** `[tag + x for x in xs]`. */
  function Tag(tag: string, xs: seq<string>): (r: seq<string>)
    ensures |r| == |xs|
    ensures forall i :: 0 <= i < |xs| ==> r[i] == tag + xs[i]
  {
    if |xs| == 0 then [] else [tag + xs[0]] + Tag(tag, xs[1..])
  }

  /** Reads a run of flags back: the payloads of `seg` when every element
      starts with `tag`, otherwise `None`. */
  function StripTag(tag: string, seg: seq<string>): Option<seq<string>>
  {
    if |seg| == 0 then Some([])
    else if !(tag <= seg[0]) then None
    else match StripTag(tag, seg[1..])
      case None => None
      case Some(rest) => Some([seg[0][|tag|..]] + rest)
  }

  /** Reading the flags back yields exactly the entries they were made from. */
  lemma {:induction false} StripTagOfTag(tag: string, xs: seq<string>)
    ensures StripTag(tag, Tag(tag, xs)) == Some(xs)
    decreases |xs|
  {
    if |xs| > 0 {
      var seg := Tag(tag, xs);
      assert seg[1..] == Tag(tag, xs[1..]);
      StripTagOfTag(tag, xs[1..]);
      assert (tag + xs[0])[|tag|..] == xs[0];
      assert [xs[0]] + xs[1..] == xs;
    }
  }

  /** A run that reads back as `xs` is exactly `Tag(tag, xs)`: no element
      other than one flag per entry. */
  lemma {:induction false} TagOfStripTag(tag: string, seg: seq<string>, xs: seq<string>)
    requires StripTag(tag, seg) == Some(xs)
    ensures Tag(tag, xs) == seg
    decreases |seg|
  {
    if |seg| > 0 {
      var rest := StripTag(tag, seg[1..]).value;
      TagOfStripTag(tag, seg[1..], rest);
      assert xs == [seg[0][|tag|..]] + rest;
      assert xs[1..] == rest;
      assert tag + seg[0][|tag|..] == seg[0];
      assert seg == [seg[0]] + seg[1..];
    }
  }

  /** The `PERL5LIB` entries, as the list comprehension iterates them. */
  function LibDirs(env: Env): seq<string>
    requires "PERL5LIB" in env
  {
    Items(env["PERL5LIB"])
  }

  /** `get_perl_I(env)`: one `-I` flag per `PERL5LIB` entry, in order, and
      nothing else; a missing `PERL5LIB` is a KeyError. */
  function PerlI(env: Env): (r: Result<seq<string>>)
    ensures r.Ok? <==> "PERL5LIB" in env
    ensures r.Err? ==> r.error == MissingKey("PERL5LIB")
    ensures r.Ok? ==> StripTag("-I", r.value) == Some(LibDirs(env))
  {
    if "PERL5LIB" !in env then Err(MissingKey("PERL5LIB"))
    else
      var flags := Tag("-I", LibDirs(env));
      StripTagOfTag("-I", LibDirs(env));
      Ok(flags)
  }

  /** `perl` followed by the include flags: the common head of every vector. */
  predicate HasPerlHead(env: Env, v: seq<string>)
    requires "PERL5LIB" in env
  {
    var n := |LibDirs(env)|;
    && |v| > n
    && v[0] == Perl
    && StripTag("-I", v[1..n + 1]) == Some(LibDirs(env))
  }

  /** `create_args_perl5_script`: `perl`, the include flags, the first
      source, then every item of `action`. */
  function ScriptArgs(env: Env, source: seq<string>): (r: Result<seq<string>>)
    ensures r.Ok? <==> "PERL5LIB" in env && |source| > 0 && "action" in env
    ensures "PERL5LIB" !in env ==> r == Err(MissingKey("PERL5LIB"))
    ensures "PERL5LIB" in env && |source| == 0 ==> r == Err(NoSource)
    ensures "PERL5LIB" in env && |source| > 0 && "action" !in env ==> r == Err(MissingKey("action"))
    ensures r.Ok? ==>
      var n := |LibDirs(env)|;
      && HasPerlHead(env, r.value)
      && |r.value| == n + 2 + |Items(env["action"])|
      && r.value[n + 1] == source[0]
      && r.value[n + 2..] == Items(env["action"])
  {
    match PerlI(env)
    case Err(e) => Err(e)
    case Ok(inc) =>
      if |source| == 0 then Err(NoSource)
      else if "action" !in env then Err(MissingKey("action"))
      else
        var v := [Perl] + inc + [source[0]] + Items(env["action"]);
        assert v[1..|inc| + 1] == inc;
        Ok(v)
  }

  /** `create_args_perl5_sub`: `perl`, the include flags, then `-M` with the
      module named after the source file, `-e` and the `action` code. The
      source is read before `PERL5LIB`, and `action` is read with `get`, so
      it must be present and a single string. */
  function SubArgs(env: Env, source: seq<string>): (r: Result<seq<string>>)
    ensures r.Ok? <==>
      |source| > 0 && "PERL5LIB" in env && "action" in env && env["action"].Str?
    ensures |source| == 0 ==> r == Err(NoSource)
    ensures |source| > 0 && "PERL5LIB" !in env ==> r == Err(MissingKey("PERL5LIB"))
    ensures r.Ok? ==>
      var n := |LibDirs(env)|;
      && HasPerlHead(env, r.value)
      && |r.value| == n + 4
      && r.value[n + 1..] == ["-M" + ModuleName(source[0]), "-e", env["action"].s]
  {
    if |source| == 0 then Err(NoSource)
    else
      var name := ModuleName(source[0]);
      match PerlI(env)
      case Err(e) => Err(e)
      case Ok(inc) =>
        match StringAt(env, "action")
        case Err(e) => Err(e)
        case Ok(code) =>
          var v := [Perl] + inc + ["-M" + name, "-e", code];
          assert v[1..|inc| + 1] == inc;
          Ok(v)
  }

  /** The `-M` flags of output mode: one per `M` entry when `M` is set. */
  function ModuleFlags(env: Env): seq<string>
  {
    if "M" in env then Tag("-M", Items(env["M"])) else []
  }

  /** The trailing arguments of output mode: the `args` items when set. */
  function ExtraArgs(env: Env): seq<string>
  {
    if "args" in env then Items(env["args"]) else []
  }

  /** `create_args_perl5_output`: `perl`, the include flags and the `-M`
      flags, then either `-e` with the `eval` code, or the first source
      followed by the `args` items. */
  function OutputArgs(env: Env, source: seq<string>): (r: Result<seq<string>>)
    ensures r.Ok? <==>
      && "PERL5LIB" in env
      && ("eval" in env ==> env["eval"].Str?)
      && ("eval" !in env ==> |source| > 0)
    ensures "PERL5LIB" !in env ==> r == Err(MissingKey("PERL5LIB"))
    ensures r.Ok? ==> |r.value| >= 2 && HasPerlHead(env, r.value)
  {
    match PerlI(env)
    case Err(e) => Err(e)
    case Ok(inc) =>
      var head := [Perl] + inc + ModuleFlags(env);
      assert head[1..|inc| + 1] == inc;
      if "eval" in env then
        match StringAt(env, "eval")
        case Err(e) => Err(e)
        case Ok(code) =>
          assert (head + ["-e", code])[1..|inc| + 1] == inc;
          Ok(head + ["-e", code])
      else if |source| == 0 then Err(NoSource)
      else
        assert (head + [source[0]] + ExtraArgs(env))[1..|inc| + 1] == inc;
        Ok(head + [source[0]] + ExtraArgs(env))
  }

  /** With `eval` set, the vector ends with one `-M` flag per `M` entry and
      then `-e` and the code; the source and `args` take no part. */
  lemma OutputWithEval(env: Env, source: seq<string>)
    requires "PERL5LIB" in env && "eval" in env && env["eval"].Str?
    ensures OutputArgs(env, source).Ok?
    ensures
      var v := OutputArgs(env, source).value;
      var n := |LibDirs(env)|;
      var m := |ModuleFlags(env)|;
      && |v| == n + m + 3
      && ("M" in env ==> StripTag("-M", v[n + 1..n + 1 + m]) == Some(Items(env["M"])))
      && ("M" !in env ==> m == 0)
      && v[n + 1 + m..] == ["-e", env["eval"].s]
  {
    var v := OutputArgs(env, source).value;
    var n := |LibDirs(env)|;
    var m := |ModuleFlags(env)|;
    assert v[n + 1..n + 1 + m] == ModuleFlags(env);
    if "M" in env {
      StripTagOfTag("-M", Items(env["M"]));
    }
  }

  /** With `eval` set, neither the source list nor `args` affects the
      vector: the same vector comes out for any other source list and any
      other (or no) `args`. */
  lemma OutputEvalIgnoresSourceAndArgs(env: Env, source: seq<string>, source': seq<string>, args: Option<Value>)
    requires "eval" in env
    ensures
      var env' := if args.Some? then env["args" := args.value] else env - {"args"};
      OutputArgs(env', source') == OutputArgs(env, source)
  {
    var env' := if args.Some? then env["args" := args.value] else env - {"args"};
    assert "PERL5LIB" in env' <==> "PERL5LIB" in env;
    assert "M" in env' <==> "M" in env;
    assert "eval" in env';
    if "PERL5LIB" in env {
      assert LibDirs(env') == LibDirs(env);
    }
    assert ModuleFlags(env') == ModuleFlags(env);
    assert StringAt(env', "eval") == StringAt(env, "eval");
  }

  /** Without `eval`, the include flags are followed by one `-M` flag per
      `M` entry in order, then the first source and the `args` items. */
  lemma OutputWithoutEval(env: Env, source: seq<string>)
    requires "PERL5LIB" in env && "eval" !in env && |source| > 0
    ensures OutputArgs(env, source).Ok?
    ensures
      var v := OutputArgs(env, source).value;
      var n := |LibDirs(env)|;
      var m := |ModuleFlags(env)|;
      var k := |ExtraArgs(env)|;
      && |v| == n + m + 2 + k
      && ("M" in env ==> StripTag("-M", v[n + 1..n + 1 + m]) == Some(Items(env["M"])))
      && ("M" !in env ==> m == 0)
      && v[n + 1 + m..] == [source[0]] + ExtraArgs(env)
  {
    var inc := Tag("-I", LibDirs(env));
    assert PerlI(env) == Ok(inc);
    var a := [Perl] + inc;
    var tail := [source[0]] + ExtraArgs(env);
    assert OutputArgs(env, source).value == a + ModuleFlags(env) + tail;
    SliceOfConcat(a, ModuleFlags(env), tail);
    if "M" in env {
      StripTagOfTag("-M", Items(env["M"]));
    }
  }

  /** The middle and the end of a three-part concatenation slice back out. */
  lemma SliceOfConcat(a: seq<string>, b: seq<string>, c: seq<string>)
    ensures (a + b + c)[|a|..|a| + |b|] == b
    ensures (a + b + c)[|a| + |b|..] == c
  {
  }

  /** The worked case of a script run: include path `lib`, action `x`. */
  lemma ScriptArgsExample()
    ensures ScriptArgs(map["PERL5LIB" := List(["lib"]), "action" := List(["x"])], ["run.pl"])
         == Ok(["perl", "-Ilib", "run.pl", "x"])
  {
    var env := map["PERL5LIB" := List(["lib"]), "action" := List(["x"])];
    assert LibDirs(env) == ["lib"];
    var inc := Tag("-I", ["lib"]);
    assert inc[0] == "-I" + "lib" == "-Ilib";
    assert inc == ["-Ilib"];
    assert Items(env["action"]) == ["x"];
    assert PerlI(env) == Ok(inc);
    assert [Perl] + inc + ["run.pl"] + ["x"] == ["perl", "-Ilib", "run.pl", "x"];
  }

  /** Python iterates a plain string character by character, so a
      `PERL5LIB` given as the string `lib` rather than the list `["lib"]`
      yields one `-I` flag per character. */
  lemma PerlIOfPlainString()
    ensures PerlI(map["PERL5LIB" := Str("lib")]) == Ok(["-Il", "-Ii", "-Ib"])
  {
    var env := map["PERL5LIB" := Str("lib")];
    assert LibDirs(env) == ["l", "i", "b"];
    var inc := Tag("-I", ["l", "i", "b"]);
    assert inc[0] == "-I" + "l" == "-Il";
    assert inc[1] == "-I" + "i" == "-Ii";
    assert inc[2] == "-I" + "b" == "-Ib";
    assert inc == ["-Il", "-Ii", "-Ib"];
  }
}
