/** The command lines the three `*_strfunc` functions print for a build
    action: `$ `, the program, a space, then every further argument wrapped
    in single quotes and separated by spaces; the output builder appends
    ` > ` and the target. Each display is rendered from the vector of the
    same builder that the action spawns, and `Unrender` reads a display back
    into that vector whenever no argument makes the quoting ambiguous. */
module Display {
  import opened Text
  import opened ConstructionEnv
  import opened Invocation

  function Quote(a: string): string
  {
    "'" + a + "'"
  }

  /** `["'%s'" % (arg) for arg in xs]`. */
  function QuoteAll(xs: seq<string>): seq<string>
  {
    seq(|xs|, i requires 0 <= i < |xs| => Quote(xs[i]))
  }

  /** The display of an argument vector: `"$ %s " % (v[0])` followed by the
      quoted remaining arguments joined with single spaces. */
  function Render(v: seq<string>): string
    requires |v| >= 1
  {
    "$ " + v[0] + " " + Join(QuoteAll(v[1..]), " ")
  }

  /** Splits a leading single-quoted word off `s`: the text up to the
      closing quote, and what follows that quote. */
  function SplitWord(s: string): (r: Option<(string, string)>)
    ensures r.Some? ==> |r.value.1| < |s|
  {
    if |s| == 0 || s[0] != '\'' then None
    else
      var body := s[1..];
      var k := IndexOf(body, '\'');
      if k < 0 then None else Some((body[..k], body[k + 1..]))
  }

  /** Reads a space-separated run of single-quoted words back into the
      words; `None` when the text is not such a run. */
  function ParseQuoted(s: string): Option<seq<string>>
    decreases |s|
  {
    if |s| == 0 then Some([])
    else match SplitWord(s)
      case None => None
      case Some((word, rest)) =>
        if |rest| == 0 then Some([word])
        else if rest[0] != ' ' || |rest| == 1 then None
        else match ParseQuoted(rest[1..])
          case None => None
          case Some(more) => Some([word] + more)
  }

  /** Reads a display back into an argument vector: the program runs up to
      the first space after `$ `, the rest is a run of quoted words. */
  function Unrender(s: string): Option<seq<string>>
  {
    if |s| < 2 || s[..2] != "$ " then None
    else
      var body := s[2..];
      var k := IndexOf(body, ' ');
      if k < 0 then None
      else match ParseQuoted(body[k + 1..])
        case None => None
        case Some(args) => Some([body[..k]] + args)
  }

  /** Vectors whose display is unambiguous: the program contains no space
      and no other argument contains a single quote. */
  predicate Displayable(v: seq<string>)
  {
    && |v| >= 1
    && ' ' !in v[0]
    && forall i :: 1 <= i < |v| ==> '\'' !in v[i]
  }

  /** A quoted word splits off as itself when it holds no quote. */
  lemma SplitQuotedWord(a: string, rest: string)
    requires '\'' !in a
    ensures SplitWord(Quote(a) + rest) == Some((a, rest))
  {
    var s := Quote(a) + rest;
    var body := s[1..];
    assert body == a + ['\''] + rest;
    IndexOfAfter(a, '\'', rest);
    assert body[..|a|] == a;
    assert body[|a| + 1..] == rest;
  }

  /** One quoted word reads back as itself. */
  lemma ParseQuotedLast(a: string)
    requires '\'' !in a
    ensures ParseQuoted(Quote(a)) == Some([a])
  {
    SplitQuotedWord(a, "");
    assert Quote(a) + "" == Quote(a);
  }

  /** A word split off before a space and a run that reads back: the
      whole text reads back as that word followed by the run's words. */
  lemma ParseQuotedSpaced(s: string, word: string, rest: string, ws: seq<string>)
    requires SplitWord(s) == Some((word, rest))
    requires |rest| >= 2 && rest[0] == ' '
    requires ParseQuoted(rest[1..]) == Some(ws)
    ensures ParseQuoted(s) == Some([word] + ws)
  {
  }

  /** A quoted word, a space and a further run read back word by word. */
  lemma ParseQuotedCons(a: string, more: string, ws: seq<string>)
    requires '\'' !in a
    requires |more| >= 2 && ParseQuoted(more) == Some(ws)
    ensures ParseQuoted(Quote(a) + " " + more) == Some([a] + ws)
  {
    var rest := " " + more;
    SplitQuotedWord(a, rest);
    SpaceTail(more);
    ParseQuotedSpaced(Quote(a) + rest, a, rest, ws);
    ConcatAssoc(Quote(a), " ", more);
  }

  /** A space put in front of a text comes back off as the first character. */
  lemma SpaceTail(more: string)
    ensures (" " + more)[1..] == more && (" " + more)[0] == ' '
  {
  }

  /** Concatenation regroups. */
  lemma ConcatAssoc(x: string, y: string, z: string)
    ensures x + y + z == x + (y + z)
  {
  }

  /** The quoted run of one word is that word quoted. */
  lemma JoinQuotedOne(args: seq<string>)
    requires |args| == 1
    ensures Join(QuoteAll(args), " ") == Quote(args[0])
  {
    assert QuoteAll(args)[0] == Quote(args[0]);
  }

  /** The quoted run of several words is the first one quoted, a space,
      and the quoted run of the others. */
  lemma JoinQuotedCons(args: seq<string>)
    requires |args| >= 2
    ensures Join(QuoteAll(args), " ") == Quote(args[0]) + " " + Join(QuoteAll(args[1..]), " ")
  {
    var q := QuoteAll(args);
    assert q[0] == Quote(args[0]);
    assert q[1..] == QuoteAll(args[1..]);
  }

  /** A non-empty run of quoted words has at least the two quotes. */
  lemma JoinQuotedLength(args: seq<string>)
    requires |args| >= 1
    ensures |Join(QuoteAll(args), " ")| >= 2
  {
    if |args| == 1 {
      JoinQuotedOne(args);
    } else {
      JoinQuotedCons(args);
    }
  }

  /** Putting one more quoted word in front of a run that reads back
      puts it in front of the words read. */
  lemma ParseQuotedJoinCons(args: seq<string>)
    requires |args| >= 2 && '\'' !in args[0]
    requires ParseQuoted(Join(QuoteAll(args[1..]), " ")) == Some(args[1..])
    ensures ParseQuoted(Join(QuoteAll(args), " ")) == Some(args)
  {
    var more := Join(QuoteAll(args[1..]), " ");
    JoinQuotedCons(args);
    JoinQuotedLength(args[1..]);
    ParseQuotedCons(args[0], more, args[1..]);
    assert [args[0]] + args[1..] == args;
  }

  /** Quoting then joining reads back as the original words. */
  lemma {:induction false} ParseQuotedJoin(args: seq<string>)
    requires forall i :: 0 <= i < |args| ==> '\'' !in args[i]
    ensures ParseQuoted(Join(QuoteAll(args), " ")) == Some(args)
    decreases |args|
  {
    if |args| == 0 {
      assert Join(QuoteAll(args), " ") == "";
    } else if |args| == 1 {
      JoinQuotedOne(args);
      ParseQuotedLast(args[0]);
      assert [args[0]] == args;
    } else {
      assert forall i :: 0 <= i < |args[1..]| ==> args[1..][i] == args[i + 1];
      ParseQuotedJoin(args[1..]);
      ParseQuotedJoinCons(args);
    }
  }

  /** A display reads back as the vector it was rendered from. */
  lemma RenderRoundTrip(v: seq<string>)
    requires Displayable(v)
    ensures Unrender(Render(v)) == Some(v)
  {
    var j := Join(QuoteAll(v[1..]), " ");
    var s := Render(v);
    assert s[..2] == "$ ";
    var body := s[2..];
    assert body == v[0] + [' '] + j;
    IndexOfAfter(v[0], ' ', j);
    assert body[..|v[0]|] == v[0];
    assert body[|v[0]| + 1..] == j;
    ParseQuotedJoin(v[1..]);
    assert [v[0]] + v[1..] == v;
  }

  /** Two unambiguous vectors with the same display are the same vector. */
  lemma RenderInjective(v: seq<string>, w: seq<string>)
    requires Displayable(v) && Displayable(w)
    requires Render(v) == Render(w)
    ensures v == w
  {
    RenderRoundTrip(v);
    RenderRoundTrip(w);
  }

  /** Quotes inside an argument are not escaped, so without the
      `Displayable` condition two different vectors can share a display. */
  lemma RenderAmbiguousWithQuote()
    ensures Render(["perl", "a' 'b"]) == Render(["perl", "a", "b"])
    ensures ["perl", "a' 'b"] != ["perl", "a", "b"]
  {
    var v := ["perl", "a' 'b"];
    var w := ["perl", "a", "b"];
    assert v[1..] == ["a' 'b"];
    assert Join(QuoteAll(v[1..]), " ") == "'a' 'b'";
    assert w[1..] == ["a", "b"];
    var q := QuoteAll(w[1..]);
    assert q[0] == "'a'" && q[1] == "'b'";
    assert q[1..] == ["'b'"];
    assert Join(q, " ") == "'a'" + " " + "'b'";
  }

  /** A display of a vector with at least one quoted argument ends with a
      single quote. */
  lemma {:induction false} JoinQuotedEndsWithQuote(args: seq<string>)
    requires |args| >= 1
    ensures var j := Join(QuoteAll(args), " "); |j| >= 1 && j[|j| - 1] == '\''
    decreases |args|
  {
    if |args| > 1 {
      assert QuoteAll(args)[1..] == QuoteAll(args[1..]);
      JoinQuotedEndsWithQuote(args[1..]);
    }
  }

  /** Shared body of the three display functions: render the vector the
      builder produced, or fail where the builder fails. */
  function Describe(built: Result<seq<string>>): (r: Result<string>)
    requires built.Ok? ==> |built.value| >= 1
    ensures r.Ok? <==> built.Ok?
    ensures r.Err? ==> r.error == built.error
    ensures r.Ok? ==> r.value == Render(built.value)
    ensures built.Ok? && Displayable(built.value) ==> Unrender(r.value) == Some(built.value)
  {
    match built
    case Err(e) => Err(e)
    case Ok(v) =>
      if Displayable(v) then RenderRoundTrip(v); Ok(Render(v))
      else Ok(Render(v))
  }

  /** `perl5_script_strfunc`: the display of the vector `perl5_script` runs. */
  function ScriptDisplay(env: Env, source: seq<string>): (r: Result<string>)
    ensures r.Ok? <==> ScriptArgs(env, source).Ok?
    ensures r.Err? ==> r.error == ScriptArgs(env, source).error
    ensures r.Ok? ==> r.value == Render(ScriptArgs(env, source).value)
    ensures r.Ok? && Displayable(ScriptArgs(env, source).value) ==>
      Unrender(r.value) == Some(ScriptArgs(env, source).value)
  {
    Describe(ScriptArgs(env, source))
  }

  /** `perl5_sub_strfunc`: the display of the vector `perl5_sub` runs. */
  function SubDisplay(env: Env, source: seq<string>): (r: Result<string>)
    ensures r.Ok? <==> SubArgs(env, source).Ok?
    ensures r.Err? ==> r.error == SubArgs(env, source).error
    ensures r.Ok? ==> r.value == Render(SubArgs(env, source).value)
    ensures r.Ok? && Displayable(SubArgs(env, source).value) ==>
      Unrender(r.value) == Some(SubArgs(env, source).value)
  {
    Describe(SubArgs(env, source))
  }

  /** Reads an output-builder display back into the vector and the target:
      the vector's display ends at the last single quote, which is followed
      by ` > ` and the target. */
  function UnrenderRedirect(s: string): Option<(seq<string>, string)>
  {
    var q := LastIndex(s, '\'');
    if q < 0 || |s| < q + 4 || s[q + 1..q + 4] != " > " then None
    else match Unrender(s[..q + 1])
      case None => None
      case Some(v) => Some((v, s[q + 4..]))
  }

  /** `perl5_output_strfunc`: the display of the vector `perl5_output` runs,
      then ` > ` and the first target. The vector is built before the
      target is read. */
  function OutputDisplay(env: Env, source: seq<string>, target: seq<string>): (r: Result<string>)
    ensures r.Ok? <==> OutputArgs(env, source).Ok? && |target| > 0
    ensures OutputArgs(env, source).Err? ==> r == Err(OutputArgs(env, source).error)
    ensures OutputArgs(env, source).Ok? && |target| == 0 ==> r == Err(NoTarget)
    ensures r.Ok? ==> r.value == Render(OutputArgs(env, source).value) + " > " + target[0]
    ensures r.Ok? && Displayable(OutputArgs(env, source).value) && '\'' !in target[0] ==>
      UnrenderRedirect(r.value) == Some((OutputArgs(env, source).value, target[0]))
  {
    match OutputArgs(env, source)
    case Err(e) => Err(e)
    case Ok(v) =>
      if |target| == 0 then Err(NoTarget)
      else
        var s := Render(v) + " > " + target[0];
        if Displayable(v) && '\'' !in target[0] then
          RedirectRoundTrip(v, target[0]);
          Ok(s)
        else Ok(s)
  }

  /** An output display reads back as its vector and target. */
  lemma RedirectRoundTrip(v: seq<string>, t: string)
    requires Displayable(v) && |v| >= 2
    requires '\'' !in t
    ensures UnrenderRedirect(Render(v) + " > " + t) == Some((v, t))
  {
    var r := Render(v);
    var s := r + " > " + t;
    JoinQuotedEndsWithQuote(v[1..]);
    assert r[|r| - 1] == '\'';
    assert s == r + (" > " + t);
    LastIndexBefore(r, '\'', " > " + t);
    assert s[..|r|] == r;
    assert s[|r|..|r| + 3] == " > ";
    assert s[|r| + 3..] == t;
    RenderRoundTrip(v);
  }
}
