/** The generator (generator/generator.py): directory validation, theme
    resolution with its fallback, output and page-template names, the
    per-file pipeline and the batch loop that sorts per-file failures into
    two lists.

    The file system is the set of paths that exist; the configuration is
    the mapping read from config.json; reading a source file, converting
    markdown, rendering a template and discovering the files below a
    directory are the functions of an `Externals` value. */
module Generator {
  import opened Types
  import opened Paths
  import opened PyStr
  import Parser
  import Templater

  type Config = map<string, string>
  type FileSystem = set<string>

  /** The collaborators the generator calls but this model does not define. */
  datatype Externals = Externals(
    read: string -> seq<string>,     // the lines of a file, as `for line in f` yields them
    markdown: string -> string,      // markdown.markdown
    engine: Templater.Engine,        // Jinja
    rglob: string -> seq<string>)    // Path(dir).rglob("*.md"), in enumeration order

  /** A `Generator` object: the fields `Generator.__init__` sets; none of
      them changes afterwards. */
  datatype SiteGenerator = SiteGenerator(theme: string, projectDir: string, contentDir: string, publishDir: string)

  /** Where a theme's files were found, and under which theme name. */
  datatype ThemeDirectory = ThemeDirectory(name: string, path: string)

  /** What `_set_theme` does once theme resolution succeeded: whether it
      prints the fallback notice, and which directory tree it copies where. */
  datatype ThemeSetting = ThemeSetting(notice: bool, copyFrom: string, copyTo: string)

  /** The outcome of one file: saved under a path, one of the parser's two
      failures, or an error that ends the batch. */
  datatype FileOutcome =
    | Saved(path: string, html: string)
    | ParseFailed(parseError: ParseError)
    | Fatal(fatal: FatalError)

  /** What a batch reports: the processed count and the two failure lists. */
  datatype GenerationReport = GenerationReport(
    processed: int, missingMetadata: seq<FileDetails>, invalidMetadata: seq<FileDetails>)

  const DefaultThemeName: string := "default"

  /** What `_get_page_template_name` appends to a page's stem. */
  const PageTemplateSuffix: string := "_template.html"

  // ----- configuration and directories -----

  /** `_get_directories`: the project, content and publish directories,
      checked in this order: the configuration names the project directory,
      the content directory exists, the publish directory exists. */
  function GetDirectories(config: Config, fs: FileSystem): (r: Result<(string, string, string), FatalError>)
    ensures "project_directory" !in config ==>
              r == Err(InvalidConfig("Missing 'project_directory' in 'config.json'"))
    ensures "project_directory" in config && Join(config["project_directory"], "content") !in fs ==>
              r == Err(FileNotFound("'content' directory was not found"))
    ensures "project_directory" in config && Join(config["project_directory"], "content") in fs
            && Join(config["project_directory"], "publish") !in fs ==>
              r == Err(FileNotFound("'publish' directory was not found"))
    ensures r.Ok? <==> "project_directory" in config
                       && Join(config["project_directory"], "content") in fs
                       && Join(config["project_directory"], "publish") in fs
    ensures r.Ok? ==> r.value.1 in fs && r.value.2 in fs
                      && r.value == (config["project_directory"],
                                     Join(config["project_directory"], "content"),
                                     Join(config["project_directory"], "publish"))
  {
    if "project_directory" !in config then
      Err(InvalidConfig("Missing 'project_directory' in 'config.json'"))
    else
      var projectDir := config["project_directory"];
      var contentDir := Join(projectDir, "content");
      var publishDir := Join(projectDir, "publish");
      if contentDir !in fs then Err(FileNotFound("'content' directory was not found"))
      else if publishDir !in fs then Err(FileNotFound("'publish' directory was not found"))
      else Ok((projectDir, contentDir, publishDir))
  }

  /** `Generator.__init__`: fails exactly when `_get_directories` does, and
      otherwise keeps the three directories it returns. The theme defaults
      to "default", as the Python default argument does. */
  function NewGenerator(config: Config, fs: FileSystem, theme: string := DefaultThemeName): (r: Result<SiteGenerator, FatalError>)
    ensures r.Err? <==> GetDirectories(config, fs).Err?
    ensures r.Err? ==> r.error == GetDirectories(config, fs).error
    ensures r.Ok? ==> r.value.theme == theme && r.value.contentDir in fs && r.value.publishDir in fs
    ensures r.Ok? ==> (r.value.projectDir, r.value.contentDir, r.value.publishDir) == GetDirectories(config, fs).value
  {
    match GetDirectories(config, fs)
    case Err(e) => Err(e)
    case Ok(dirs) => Ok(SiteGenerator(theme, dirs.0, dirs.1, dirs.2))
  }

  // ----- themes -----

  /** `_get_default_theme`: `config.get("theme", "default")`. */
  function DefaultTheme(config: Config): (t: string)
    ensures "theme" in config ==> t == config["theme"]
    ensures "theme" !in config ==> t == DefaultThemeName
  {
    if "theme" in config then config["theme"] else DefaultThemeName
  }

  /** The `templates` directory directly inside the project directory. */
  function TemplatesDir(g: SiteGenerator): (dir: string)
    ensures Name(dir) == "templates"
    ensures StartsWith(dir, g.projectDir + "/")
    ensures dir[|g.projectDir| + 1..] == "templates"
  {
    NameOfJoin(g.projectDir, "templates");
    JoinParts(g.projectDir, "templates");
    Join(g.projectDir, "templates")
  }

  /** The error when neither theme is found. It names the requested theme
      first and the default second; the run of spaces comes from a
      backslash line continuation inside the source's string literal. */
  function ThemeNotFoundMessage(theme: string, defaultTheme: string): (m: string)
    ensures StartsWith(m, "couldn't find theme '" + theme + "'")
    ensures var tail := "'" + defaultTheme + "' theme but couldn't find that as well";
            |tail| <= |m| && m[|m| - |tail|..] == tail
  {
    var head := "couldn't find theme '" + theme + "'";
    var tail := "'" + defaultTheme + "' theme but couldn't find that as well";
    var m := head + " and tried to              fall back to " + tail;
    assert m[..|head|] == head;
    assert m[|m| - |tail|..] == tail;
    m
  }

  /** `_get_theme_directory`: `templates/<theme>` if it exists, otherwise
      `templates/themes/<default>` if that exists, otherwise an error; a
      missing `templates` directory is an error before either lookup. */
  function GetThemeDirectory(g: SiteGenerator, config: Config, fs: FileSystem): (r: Result<ThemeDirectory, FatalError>)
    ensures TemplatesDir(g) !in fs ==> r == Err(FileNotFound("'templates' directory was not found"))
    ensures TemplatesDir(g) in fs && Join(TemplatesDir(g), g.theme) in fs ==>
              r == Ok(ThemeDirectory(g.theme, Join(TemplatesDir(g), g.theme)))
    ensures TemplatesDir(g) in fs && Join(TemplatesDir(g), g.theme) !in fs
            && Join(Join(TemplatesDir(g), "themes"), DefaultTheme(config)) in fs ==>
              r == Ok(ThemeDirectory(DefaultTheme(config), Join(Join(TemplatesDir(g), "themes"), DefaultTheme(config))))
    ensures TemplatesDir(g) in fs && Join(TemplatesDir(g), g.theme) !in fs
            && Join(Join(TemplatesDir(g), "themes"), DefaultTheme(config)) !in fs ==>
              r == Err(FileNotFound(ThemeNotFoundMessage(g.theme, DefaultTheme(config))))
  {
    var templatesDir := TemplatesDir(g);
    if templatesDir !in fs then Err(FileNotFound("'templates' directory was not found"))
    else
      var themeDir := Join(templatesDir, g.theme);
      if themeDir in fs then Ok(ThemeDirectory(g.theme, themeDir))
      else
        var defaultTheme := DefaultTheme(config);
        var defaultDir := Join(Join(templatesDir, "themes"), defaultTheme);
        if defaultDir !in fs then Err(FileNotFound(ThemeNotFoundMessage(g.theme, defaultTheme)))
        else Ok(ThemeDirectory(defaultTheme, defaultDir))
  }

  /** A resolved theme directory exists, and it is either the requested
      theme or the configured default. */
  lemma ResolvedThemeExists(g: SiteGenerator, config: Config, fs: FileSystem)
    requires GetThemeDirectory(g, config, fs).Ok?
    ensures GetThemeDirectory(g, config, fs).value.path in fs
    ensures GetThemeDirectory(g, config, fs).value.name in {g.theme, DefaultTheme(config)}
  {
  }

  /** `_set_theme`: resolve the theme, print a notice when the resolved name
      is not the requested one, and copy the theme directory into
      `publish/static`. */
  function SetTheme(g: SiteGenerator, config: Config, fs: FileSystem): (r: Result<ThemeSetting, FatalError>)
    ensures r.Err? <==> GetThemeDirectory(g, config, fs).Err?
    ensures r.Err? ==> r.error == GetThemeDirectory(g, config, fs).error
    ensures r.Ok? ==> r.value.copyFrom == GetThemeDirectory(g, config, fs).value.path
                      && r.value.copyTo == Join(g.publishDir, "static")
  {
    match GetThemeDirectory(g, config, fs)
    case Err(e) => Err(e)
    case Ok(t) => Ok(ThemeSetting(t.name != g.theme, t.path, Join(g.publishDir, "static")))
  }

  /** The fallback notice appears exactly when the requested theme's
      directory is missing AND the default theme has another name: falling
      back to a default of the same name is silent. */
  lemma FallbackNoticeIff(g: SiteGenerator, config: Config, fs: FileSystem)
    requires SetTheme(g, config, fs).Ok?
    ensures SetTheme(g, config, fs).value.notice
            <==> Join(TemplatesDir(g), g.theme) !in fs && DefaultTheme(config) != g.theme
  {
  }

  /** Requesting "nonexistent" when only `templates/themes/default` exists
      falls back to "default" with a notice; when that is missing too, the
      error names both themes. */
  lemma FallbackExample(projectDir: string)
    ensures var g := SiteGenerator("nonexistent", projectDir, Join(projectDir, "content"), Join(projectDir, "publish"));
            var templates := Join(projectDir, "templates");
            var defaultDir := Join(Join(templates, "themes"), "default");
            && GetThemeDirectory(g, map[], {templates, defaultDir}) == Ok(ThemeDirectory("default", defaultDir))
            && SetTheme(g, map[], {templates, defaultDir}).value.notice
            && GetThemeDirectory(g, map[], {templates})
               == Err(FileNotFound(ThemeNotFoundMessage("nonexistent", "default")))
  {
    var templates := Join(projectDir, "templates");
    var defaultDir := Join(Join(templates, "themes"), "default");
    var themeDir := Join(templates, "nonexistent");
    assert |themeDir| != |templates| && |themeDir| != |defaultDir|;
    assert "nonexistent" != DefaultThemeName;
  }

  // ----- names -----

  /** `_save_rendered_html`: the output file is `<publish>/<stem>.html`. */
  function OutputPath(g: SiteGenerator, filepath: string): (path: string)
    ensures Name(path) == Stem(filepath) + ".html"
    ensures path == Join(g.publishDir, Name(path))
  {
    var name := Stem(filepath) + ".html";
    assert '/' !in ".html";
    NameOfJoin(g.publishDir, name);
    Join(g.publishDir, name)
  }

  /** `_get_page_template_name`: `<stem>_template.html`. */
  function PageTemplateName(filepath: string): (name: string)
    ensures '/' !in name
    ensures StartsWith(name, Stem(filepath))
    ensures name[|Stem(filepath)|..] == PageTemplateSuffix
  {
    assert '/' !in PageTemplateSuffix;
    SuffixedName(Stem(filepath), PageTemplateSuffix)
  }

  /** A file name made of a stem and a suffix, neither with a '/'. */
  function SuffixedName(stem: string, suffix: string): (name: string)
    ensures '/' !in stem && '/' !in suffix ==> '/' !in name
    ensures StartsWith(name, stem)
    ensures |name| == |stem| + |suffix| && name[|stem|..] == suffix
  {
    var name := stem + suffix;
    assert name[..|stem|] == stem;
    assert name[|stem|..] == suffix;
    name
  }

  /** Text between a fixed prefix and a fixed suffix is recovered from the whole. */
  lemma CancelAround(prefix: string, x: string, y: string, suffix: string)
    requires prefix + (x + suffix) == prefix + (y + suffix)
    ensures x == y
  {
    var wx, wy := prefix + (x + suffix), prefix + (y + suffix);
    assert |x| == |y|;
    assert x == wx[|prefix|..|prefix| + |x|];
    assert y == wy[|prefix|..|prefix| + |y|];
  }

  /** Only the stem decides the output file: two source files share an
      output file exactly when their stems are equal, whatever their
      directories. */
  lemma OutputPathIff(g: SiteGenerator, a: string, b: string)
    ensures OutputPath(g, a) == OutputPath(g, b) <==> Stem(a) == Stem(b)
  {
    if OutputPath(g, a) == OutputPath(g, b) {
      CancelAround(g.publishDir + "/", Stem(a), Stem(b), ".html");
    }
  }

  /** The same holds of page template names. */
  lemma PageTemplateNameIff(a: string, b: string)
    ensures PageTemplateName(a) == PageTemplateName(b) <==> Stem(a) == Stem(b)
  {
    if PageTemplateName(a) == PageTemplateName(b) {
      assert PageTemplateName(a) == "" + (Stem(a) + "_template.html");
      assert PageTemplateName(b) == "" + (Stem(b) + "_template.html");
      CancelAround("", Stem(a), Stem(b), "_template.html");
    }
  }

  /** `articles/2021/post.md` and `articles/2022/post.md` are written to the
      same output file. */
  lemma OutputCollision(g: SiteGenerator, dir1: string, dir2: string, base: string)
    requires '/' !in base && base != ""
    ensures OutputPath(g, Join(dir1, base + ".md")) == OutputPath(g, Join(dir2, base + ".md"))
    ensures OutputPath(g, Join(dir1, base + ".md")) == Join(g.publishDir, base + ".html")
  {
    StemOfMarkdown(dir1, base);
    StemOfMarkdown(dir2, base);
  }

  // ----- one file -----

  /** `generate_single_article`: parse, convert the body, render with the
      article template, save under the output path. */
  function GenerateSingleArticle(g: SiteGenerator, ext: Externals, filepath: string): (r: FileOutcome)
    ensures r.ParseFailed? <==> Parser.ParseDocument(ext.read(filepath)).Err?
    ensures r.ParseFailed? ==> r.parseError == Parser.ParseDocument(ext.read(filepath)).error
    ensures r.Saved? ==> r.path == OutputPath(g, filepath)
    ensures Parser.ParseDocument(ext.read(filepath)).Ok? ==>
              var parsed := Parser.ParseDocument(ext.read(filepath)).value;
              var rendered := Templater.RenderArticle(ext.engine, parsed.(content := ext.markdown(parsed.content)));
              r == if rendered.Ok? then Saved(OutputPath(g, filepath), rendered.value) else Fatal(rendered.error)
  {
    match Parser.ParseDocument(ext.read(filepath))
    case Err(e) => ParseFailed(e)
    case Ok(parsed) =>
      var converted := parsed.(content := ext.markdown(parsed.content));
      match Templater.RenderArticle(ext.engine, converted)
      case Err(e) => Fatal(e)
      case Ok(html) => Saved(OutputPath(g, filepath), html)
  }

  /** `generate_single_page`: as an article, but with the template named
      after the file's stem. */
  function GenerateSinglePage(g: SiteGenerator, ext: Externals, filepath: string): (r: FileOutcome)
    ensures r.ParseFailed? <==> Parser.ParseDocument(ext.read(filepath)).Err?
    ensures r.ParseFailed? ==> r.parseError == Parser.ParseDocument(ext.read(filepath)).error
    ensures r.Saved? ==> r.path == OutputPath(g, filepath)
    ensures Parser.ParseDocument(ext.read(filepath)).Ok? ==>
              var parsed := Parser.ParseDocument(ext.read(filepath)).value;
              var rendered := Templater.RenderPage(ext.engine, parsed.(content := ext.markdown(parsed.content)), PageTemplateName(filepath));
              r == if rendered.Ok? then Saved(OutputPath(g, filepath), rendered.value) else Fatal(rendered.error)
  {
    match Parser.ParseDocument(ext.read(filepath))
    case Err(e) => ParseFailed(e)
    case Ok(parsed) =>
      var converted := parsed.(content := ext.markdown(parsed.content));
      match Templater.RenderPage(ext.engine, converted, PageTemplateName(filepath))
      case Err(e) => Fatal(e)
      case Ok(html) => Saved(OutputPath(g, filepath), html)
  }

  /** A well-formed article is saved under its output path with the page
      the engine renders from the article template and the variables: the
      header's entries and, under "content", the converted body. */
  lemma ArticleEndToEnd(g: SiteGenerator, ext: Externals, filepath: string,
                        entries: seq<(string, string)>, body: seq<string>, html: string)
    requires forall i :: 0 <= i < |entries| ==> Parser.WellFormedEntry(entries[i].0, entries[i].1)
    requires ext.read(filepath) == Parser.Document([], "---\n", entries, "---\n", body)
    requires ext.engine(Templater.ArticleTemplate,
                        Parser.EntriesMap(entries)[Templater.ContentKey := ext.markdown(Concat(body))]) == Ok(html)
    ensures GenerateSingleArticle(g, ext, filepath) == Saved(OutputPath(g, filepath), html)
  {
    assert Parser.IsDelimiter("---\n");
    Parser.RoundTrip([], "---\n", entries, "---\n", body);
  }

  function ArticlePipeline(g: SiteGenerator, ext: Externals): string -> FileOutcome {
    filepath => GenerateSingleArticle(g, ext, filepath)
  }

  function PagePipeline(g: SiteGenerator, ext: Externals): string -> FileOutcome {
    filepath => GenerateSinglePage(g, ext, filepath)
  }

  // ----- the batch -----

  /** `FileDetails(md_file.name, md_file)` */
  function Details(filepath: string): (d: FileDetails)
    ensures d.filepath == filepath && d.filename == Name(filepath)
  {
    FileDetails(Name(filepath), filepath)
  }

  predicate IsMissing(outcome: FileOutcome) {
    outcome.ParseFailed? && outcome.parseError.NoMetadata?
  }

  predicate IsInvalid(outcome: FileOutcome) {
    outcome.ParseFailed? && outcome.parseError.InvalidMetadataSyntax?
  }

  /** The position of the first file whose outcome is fatal, or |files|. */
  function FirstFatal(files: seq<string>, process: string -> FileOutcome): (i: nat)
    ensures i <= |files|
    ensures forall k :: 0 <= k < i ==> !process(files[k]).Fatal?
    ensures i < |files| ==> process(files[i]).Fatal?
  {
    if files == [] || process(files[0]).Fatal? then 0
    else 1 + FirstFatal(files[1..], process)
  }

  /** The files whose outcome is of the given kind, in file order. */
  function Collected(files: seq<string>, process: string -> FileOutcome, kind: FileOutcome -> bool): seq<FileDetails> {
    if files == [] then []
    else
      var last := files[|files| - 1];
      Collected(files[..|files| - 1], process, kind) + (if kind(process(last)) then [Details(last)] else [])
  }

  /** The files without metadata, in order. */
  function MissingOf(files: seq<string>, process: string -> FileOutcome): seq<FileDetails> {
    Collected(files, process, IsMissing)
  }

  /** The files with invalid metadata syntax, in order. */
  function InvalidOf(files: seq<string>, process: string -> FileOutcome): seq<FileDetails> {
    Collected(files, process, IsInvalid)
  }

  /** The number of files saved. */
  function CountSaved(files: seq<string>, process: string -> FileOutcome): nat {
    if files == [] then 0
    else CountSaved(files[..|files| - 1], process) + (if process(files[|files| - 1]).Saved? then 1 else 0)
  }

  /** The publish directory after the files have been processed in order:
      each save writes its page, a later save to the same path overwrites. */
  function Publish(publish: map<string, string>, files: seq<string>, process: string -> FileOutcome): map<string, string> {
    if files == [] then publish
    else
      var before := Publish(publish, files[..|files| - 1], process);
      var outcome := process(files[|files| - 1]);
      if outcome.Saved? then before[outcome.path := outcome.html] else before
  }

  /** One more file extends the lists and the publish directory by its outcome alone. */
  lemma BatchStep(files: seq<string>, process: string -> FileOutcome, publish: map<string, string>, i: int)
    requires 0 <= i < |files|
    ensures var outcome := process(files[i]);
            && MissingOf(files[..i + 1], process)
               == MissingOf(files[..i], process) + (if IsMissing(outcome) then [Details(files[i])] else [])
            && InvalidOf(files[..i + 1], process)
               == InvalidOf(files[..i], process) + (if IsInvalid(outcome) then [Details(files[i])] else [])
            && Publish(publish, files[..i + 1], process)
               == (var before := Publish(publish, files[..i], process);
                   if outcome.Saved? then before[outcome.path := outcome.html] else before)
  {
    assert files[..i + 1][..i] == files[..i];
  }

  /** What `_generate_all` produces: the first fatal error, or the report. */
  function BatchResult(files: seq<string>, process: string -> FileOutcome): Result<GenerationReport, FatalError> {
    var stop := FirstFatal(files, process);
    if stop < |files| then Err(process(files[stop]).fatal)
    else
      var missing := MissingOf(files, process);
      var invalid := InvalidOf(files, process);
      Ok(GenerationReport(|files| - |missing| - |invalid|, missing, invalid))
  }

  /** `_generate_all`: every file once, in order; the two parser failures
      are collected, anything else ends the batch (the pages saved before
      it stay written). */
  method GenerateAll(files: seq<string>, process: string -> FileOutcome, publish: map<string, string>)
    returns (r: Result<GenerationReport, FatalError>, published: map<string, string>)
    ensures r == BatchResult(files, process)
    ensures published == Publish(publish, files[..FirstFatal(files, process)], process)
  {
    var missingMetadata: seq<FileDetails> := [];
    var invalidMetadata: seq<FileDetails> := [];
    published := publish;

    for i := 0 to |files|
      invariant forall k :: 0 <= k < i ==> !process(files[k]).Fatal?
      invariant missingMetadata == MissingOf(files[..i], process)
      invariant invalidMetadata == InvalidOf(files[..i], process)
      invariant published == Publish(publish, files[..i], process)
    {
      BatchStep(files, process, publish, i);
      var mdFile := files[i];
      match process(mdFile)
      case Saved(path, html) =>
        published := published[path := html];
      case ParseFailed(NoMetadata) =>
        missingMetadata := missingMetadata + [FileDetails(Name(mdFile), mdFile)];
      case ParseFailed(InvalidMetadataSyntax(_)) =>
        invalidMetadata := invalidMetadata + [FileDetails(Name(mdFile), mdFile)];
      case Fatal(e) =>
        assert FirstFatal(files, process) == i;
        return Err(e), published;
    }

    assert files[..|files|] == files;
    var processedFiles := |files| - |missingMetadata| - |invalidMetadata|;
    r := Ok(GenerationReport(processedFiles, missingMetadata, invalidMetadata));
  }

  /** `generate_all_articles`: set the theme (a failure ends the run before
      any file), then run the batch over `content/articles`. */
  method GenerateAllArticles(g: SiteGenerator, ext: Externals, config: Config, fs: FileSystem,
                             publish: map<string, string>)
    returns (r: Result<GenerationReport, FatalError>, published: map<string, string>)
    ensures SetTheme(g, config, fs).Err? ==> r == Err(SetTheme(g, config, fs).error) && published == publish
    ensures SetTheme(g, config, fs).Ok? ==>
              var files := ext.rglob(Join(g.contentDir, "articles"));
              var process := ArticlePipeline(g, ext);
              r == BatchResult(files, process)
              && published == Publish(publish, files[..FirstFatal(files, process)], process)
  {
    var setting := SetTheme(g, config, fs);
    if setting.Err? {
      return Err(setting.error), publish;
    }
    r, published := GenerateAll(ext.rglob(Join(g.contentDir, "articles")), ArticlePipeline(g, ext), publish);
  }

  /** `generate_all_pages`: the same over `content/pages`, with page templates. */
  method GenerateAllPages(g: SiteGenerator, ext: Externals, config: Config, fs: FileSystem,
                          publish: map<string, string>)
    returns (r: Result<GenerationReport, FatalError>, published: map<string, string>)
    ensures SetTheme(g, config, fs).Err? ==> r == Err(SetTheme(g, config, fs).error) && published == publish
    ensures SetTheme(g, config, fs).Ok? ==>
              var files := ext.rglob(Join(g.contentDir, "pages"));
              var process := PagePipeline(g, ext);
              r == BatchResult(files, process)
              && published == Publish(publish, files[..FirstFatal(files, process)], process)
  {
    var setting := SetTheme(g, config, fs);
    if setting.Err? {
      return Err(setting.error), publish;
    }
    r, published := GenerateAll(ext.rglob(Join(g.contentDir, "pages")), PagePipeline(g, ext), publish);
  }

  // ----- properties of the batch -----

  /** Without a fatal outcome every file is exactly one of saved, missing
      metadata or invalid metadata; so the processed count is the number of
      saved files, never negative and never more than the total. */
  lemma {:induction false} OutcomesPartition(files: seq<string>, process: string -> FileOutcome)
    requires forall k :: 0 <= k < |files| ==> !process(files[k]).Fatal?
    ensures |MissingOf(files, process)| + |InvalidOf(files, process)| + CountSaved(files, process) == |files|
  {
    if files != [] {
      var init := files[..|files| - 1];
      forall k | 0 <= k < |init| ensures !process(init[k]).Fatal? {
        assert init[k] == files[k];
      }
      OutcomesPartition(init, process);
    }
  }

  lemma BatchAccounting(files: seq<string>, process: string -> FileOutcome)
    requires BatchResult(files, process).Ok?
    ensures var report := BatchResult(files, process).value;
            && report.processed == CountSaved(files, process)
            && 0 <= report.processed <= |files|
            && report.processed + |report.missingMetadata| + |report.invalidMetadata| == |files|
  {
    OutcomesPartition(files, process);
  }

  /** The batch ends in an error exactly when some file's outcome is fatal,
      and the error is that of the first such file. */
  lemma BatchFailsIff(files: seq<string>, process: string -> FileOutcome)
    ensures BatchResult(files, process).Err? <==> exists k :: 0 <= k < |files| && process(files[k]).Fatal?
    ensures BatchResult(files, process).Err? ==>
              exists k :: 0 <= k < |files| && process(files[k]).Fatal?
                          && (forall j :: 0 <= j < k ==> !process(files[j]).Fatal?)
                          && BatchResult(files, process).error == process(files[k]).fatal
  {
  }

  /** File `k` has an outcome of the given kind and `d` describes it. */
  predicate CollectedAt(files: seq<string>, process: string -> FileOutcome, kind: FileOutcome -> bool,
                        d: FileDetails, k: int) {
    0 <= k < |files| && kind(process(files[k])) && d == Details(files[k])
  }

  lemma {:induction false} CollectedListed(files: seq<string>, process: string -> FileOutcome,
                                           kind: FileOutcome -> bool, k: int)
    requires 0 <= k < |files| && kind(process(files[k]))
    ensures Details(files[k]) in Collected(files, process, kind)
  {
    var init := files[..|files| - 1];
    var d := Details(files[k]);
    assert Collected(files, process, kind)
           == Collected(init, process, kind) + (if kind(process(files[|files| - 1])) then [Details(files[|files| - 1])] else []);
    if k < |init| {
      assert init[k] == files[k];
      CollectedListed(init, process, kind, k);
    } else {
      assert d in [Details(files[|files| - 1])];
    }
  }

  lemma {:induction false} CollectedOnlyKind(files: seq<string>, process: string -> FileOutcome,
                                             kind: FileOutcome -> bool, d: FileDetails)
    requires d in Collected(files, process, kind)
    ensures exists k :: CollectedAt(files, process, kind, d, k)
  {
    var init := files[..|files| - 1];
    if d in Collected(init, process, kind) {
      CollectedOnlyKind(init, process, kind, d);
      var k :| CollectedAt(init, process, kind, d, k);
      assert CollectedAt(files, process, kind, d, k);
    } else {
      assert CollectedAt(files, process, kind, d, |files| - 1);
    }
  }

  /** A file is listed as missing metadata exactly when its outcome is
      NoMetadata, and as invalid exactly when it is InvalidMetadataSyntax. */
  lemma CollectedIff(files: seq<string>, process: string -> FileOutcome, d: FileDetails)
    ensures d in MissingOf(files, process) <==> exists k :: CollectedAt(files, process, IsMissing, d, k)
    ensures d in InvalidOf(files, process) <==> exists k :: CollectedAt(files, process, IsInvalid, d, k)
  {
    if d in MissingOf(files, process) {
      CollectedOnlyKind(files, process, IsMissing, d);
    }
    if exists k :: CollectedAt(files, process, IsMissing, d, k) {
      var k :| CollectedAt(files, process, IsMissing, d, k);
      CollectedListed(files, process, IsMissing, k);
    }
    if d in InvalidOf(files, process) {
      CollectedOnlyKind(files, process, IsInvalid, d);
    }
    if exists k :: CollectedAt(files, process, IsInvalid, d, k) {
      var k :| CollectedAt(files, process, IsInvalid, d, k);
      CollectedListed(files, process, IsInvalid, k);
    }
  }

  /** The lists are built in file order: the list for `a + b` is the list
      for `a` followed by the list for `b`. */
  lemma {:induction false} CollectedAppend(a: seq<string>, b: seq<string>, process: string -> FileOutcome,
                                           kind: FileOutcome -> bool)
    ensures Collected(a + b, process, kind) == Collected(a, process, kind) + Collected(b, process, kind)
  {
    if b == [] {
      assert a + b == a;
    } else {
      var b' := b[..|b| - 1];
      assert (a + b)[..|a + b| - 1] == a + b';
      CollectedAppend(a, b', process, kind);
    }
  }

  /** After the batch, a path holds the page of the LAST file saved to it;
      with OutputPathIff this is the collision of equal stems. */
  lemma {:induction false} PublishLastWins(publish: map<string, string>, files: seq<string>,
                                           process: string -> FileOutcome, k: nat)
    requires k < |files| && process(files[k]).Saved?
    requires forall j :: k < j < |files| && process(files[j]).Saved? ==> process(files[j]).path != process(files[k]).path
    ensures process(files[k]).path in Publish(publish, files, process)
    ensures Publish(publish, files, process)[process(files[k]).path] == process(files[k]).html
  {
    var init := files[..|files| - 1];
    if k < |files| - 1 {
      assert init[k] == files[k];
      forall j | k < j < |init| && process(init[j]).Saved? ensures process(init[j]).path != process(init[k]).path {
        assert init[j] == files[j];
      }
      PublishLastWins(publish, init, process, k);
    }
  }

  /** A path no file saves to keeps what the publish directory held. */
  lemma {:induction false} PublishUntouched(publish: map<string, string>, files: seq<string>,
                                            process: string -> FileOutcome, p: string)
    requires forall j :: 0 <= j < |files| && process(files[j]).Saved? ==> process(files[j]).path != p
    ensures p in Publish(publish, files, process) <==> p in publish
    ensures p in publish ==> Publish(publish, files, process)[p] == publish[p]
  {
    if files != [] {
      var init := files[..|files| - 1];
      forall j | 0 <= j < |init| && process(init[j]).Saved? ensures process(init[j]).path != p {
        assert init[j] == files[j];
      }
      PublishUntouched(publish, init, process, p);
    }
  }

  /** The position of the last file saved to `p`, or -1 when none is. */
  function LastSaveTo(files: seq<string>, process: string -> FileOutcome, p: string): (k: int)
    ensures -1 <= k < |files|
    ensures k >= 0 ==> process(files[k]).Saved? && process(files[k]).path == p
    ensures forall j :: k < j < |files| && process(files[j]).Saved? ==> process(files[j]).path != p
  {
    if files == [] then -1
    else
      var last := process(files[|files| - 1]);
      if last.Saved? && last.path == p then |files| - 1
      else LastSaveTo(files[..|files| - 1], process, p)
  }

  /** Running the same batch a second time over its own output changes
      nothing: every written path gets the page it already holds, and
      every other path is left alone. */
  lemma PublishIdempotent(publish: map<string, string>, files: seq<string>, process: string -> FileOutcome)
    ensures Publish(Publish(publish, files, process), files, process) == Publish(publish, files, process)
  {
    var once := Publish(publish, files, process);
    var twice := Publish(once, files, process);
    forall p ensures (p in twice <==> p in once) && (p in once ==> twice[p] == once[p]) {
      var k := LastSaveTo(files, process, p);
      if k >= 0 {
        PublishLastWins(publish, files, process, k);
        PublishLastWins(once, files, process, k);
      } else {
        PublishUntouched(publish, files, process, p);
        PublishUntouched(once, files, process, p);
      }
    }
  }
}
