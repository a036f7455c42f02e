/** The parts of Python's `pathlib.Path` the generator uses: joining with
    `/`, the final component `name`, and `stem`. Paths are '/'-separated
    strings; Path's own normalisation (repeated or trailing separators,
    "." components) is not modelled. */
module Paths {
  import opened PyStr

  /** `Path(dir) / name` */
  function Join(dir: string, name: string): string {
    dir + "/" + name
  }

  /** A joined path is the directory, one '/', then the joined component;
      so joining onto one directory is injective. */
  lemma JoinParts(dir: string, name: string)
    ensures |Join(dir, name)| == |dir| + 1 + |name|
    ensures Join(dir, name)[..|dir|] == dir && Join(dir, name)[|dir|] == '/'
    ensures Join(dir, name)[|dir| + 1..] == name
    ensures forall other :: Join(dir, other) == Join(dir, name) ==> other == name
  {
    var p := Join(dir, name);
    assert p[|dir| + 1..] == name;
    forall other | Join(dir, other) == p ensures other == name {
      assert Join(dir, other)[|dir| + 1..] == other;
    }
  }

  /** `path.name`: everything after the last '/'. */
  function Name(path: string): (name: string)
    ensures '/' !in name
    ensures |name| <= |path| && name == path[|path| - |name|..]
    ensures |name| < |path| ==> path[|path| - |name| - 1] == '/'
  {
    path[LastIndexOf(path, '/') + 1..]
  }

  /** `path.stem`: the name without its last suffix. As in `pathlib`, a dot
      in first or last position of the name does not start a suffix, so
      ".md" and "notes." are their own stems. */
  function Stem(path: string): (stem: string)
    ensures '/' !in stem
    ensures |stem| <= |Name(path)| && stem == Name(path)[..|stem|]
  {
    var name := Name(path);
    assert '/' !in name;
    NameStem(name)
  }

  /** The stem of a final path component: the text before its last dot,
      unless that dot is its first or last character. */
  function NameStem(name: string): (stem: string)
    ensures |stem| <= |name| && stem == name[..|stem|]
    ensures '/' !in name ==> '/' !in stem
  {
    var i := LastIndexOf(name, '.');
    if 0 < i < |name| - 1 then
      assert forall k :: 0 <= k < i ==> name[..i][k] == name[k];
      name[..i]
    else name
  }

  /** The name of a joined path is the component that was joined on. */
  lemma NameOfJoin(dir: string, name: string)
    requires '/' !in name
    ensures Name(Join(dir, name)) == name
  {
    var path := Join(dir, name);
    assert path[|dir|] == '/';
    forall k | |dir| < k < |path| ensures path[k] != '/' {
      assert path[k] == name[k - |dir| - 1];
    }
    assert LastIndexOf(path, '/') == |dir|;
    assert path[|dir| + 1..] == name;
  }

  /** The stem of a source file `<dir>/<base>.md` is `<base>`, whatever the
      directory: files of equal base name in different directories have
      equal stems. */
  lemma StemOfMarkdown(dir: string, base: string)
    requires '/' !in base && base != ""
    ensures Stem(Join(dir, base + ".md")) == base
  {
    var name := base + ".md";
    assert '/' !in name by {
      assert forall k :: |base| <= k < |name| ==> name[k] == ".md"[k - |base|];
    }
    NameOfJoin(dir, name);
    assert name[|base|] == '.';
    assert name[|base| + 1] == 'm' && name[|base| + 2] == 'd';
    assert LastIndexOf(name, '.') == |base|;
    assert name[..|base|] == base;
  }
}
