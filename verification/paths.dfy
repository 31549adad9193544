/** POSIX path helpers used to derive a Perl module name from a file:
    `os.path.basename` and the root half of `os.path.splitext`. */
module Paths {
  import opened Text

  /** `os.path.basename(p)`: everything after the last '/'. */
  function Basename(p: string): (r: string)
    ensures '/' !in r
    ensures |r| <= |p| && p[|p| - |r|..] == r
    ensures |r| < |p| ==> p[|p| - |r| - 1] == '/'
  {
    p[LastIndex(p, '/') + 1..]
  }

  /** `os.path.splitext(p)[0]`. The extension is the part from the last '.'
      of the final path component, and it is split off only when some
      character other than '.' comes before that dot in the component, so
      that `.bashrc` and `..pm` keep their leading dots. */
  function StripExt(p: string): (r: string)
    ensures r <= p
    ensures r != p ==> p[|r|] == '.'
    ensures r != p ==> forall j :: |r| < j < |p| ==> p[j] != '.' && p[j] != '/'
    ensures r != p ==> exists k :: LastIndex(p, '/') < k < |r| && p[k] != '.'
    ensures r == p <==> forall k :: LastIndex(p, '/') < k < LastIndex(p, '.') ==> p[k] == '.'
  {
    var sep := LastIndex(p, '/');
    var dot := LastIndex(p, '.');
    if dot > sep && exists k :: sep < k < dot && p[k] != '.' then p[..dot] else p
  }

  /** The module name `perl5_sub` loads with `-M`: the base name of the
      source file with its extension removed. */
  function ModuleName(path: string): (r: string)
    ensures '/' !in r
    ensures r <= Basename(path)
    ensures r != Basename(path) ==>
      var ext := Basename(path)[|r|..];
      ext[0] == '.' && '.' !in ext[1..] && exists k :: 0 <= k < |r| && r[k] != '.'
    ensures r == Basename(path) ==>
      forall k :: 0 <= k < LastIndex(r, '.') ==> r[k] == '.'
  {
    var name := Basename(path);
    var root := StripExt(name);
    assert LastIndex(name, '/') == -1;
    root
  }

  /** A module file inside a directory loads under its bare name. */
  lemma ModuleNameOfModuleFile()
    ensures ModuleName("foo/Bar.pm") == "Bar"
  {
    LastIndexAt("foo/Bar.pm", '/', 3);
    assert Basename("foo/Bar.pm") == "Bar.pm";
    LastIndexAbsent("Bar.pm", '/');
    LastIndexAt("Bar.pm", '.', 3);
    assert "Bar.pm"[0] != '.';
  }

  /** Only the last extension is removed. */
  lemma ModuleNameOfDoubleExtension()
    ensures ModuleName("lib/a.tar.gz") == "a.tar"
  {
    LastIndexAt("lib/a.tar.gz", '/', 3);
    assert Basename("lib/a.tar.gz") == "a.tar.gz";
    LastIndexAbsent("a.tar.gz", '/');
    LastIndexAt("a.tar.gz", '.', 5);
    assert "a.tar.gz"[0] != '.';
  }

  /** A leading dot does not start an extension. */
  lemma ModuleNameOfDotFile()
    ensures ModuleName("lib/.perltidyrc") == ".perltidyrc"
  {
    LastIndexAt("lib/.perltidyrc", '/', 3);
    assert Basename("lib/.perltidyrc") == ".perltidyrc";
    LastIndexAbsent(".perltidyrc", '/');
    LastIndexAt(".perltidyrc", '.', 0);
  }
}
