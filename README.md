# static-gen generation pipeline in Dafny

This project models the generation core of static-gen, a small static-site generator written in Python. The model has three parts.

- **Front-matter parser** (`generator/parser.py`).
  - A markdown document is read line by line. It carries a header between the first two lines that begin with `---`.
  - Each header line is `key: value`. The lines after the closing delimiter are the body.
  - `Parser.PartitionFileContent` and `Parser.ParseMetadata` are methods with the source's loops. Each is proved equal to a specification function: `SplitDocument` and `HeaderMap`.
  - The two loops of `_partition_file_content` share one file iterator. They are two methods, `SkipToDelimiter` and `ReadHeader`, that pass the iterator's position from one to the other.
  - Lemmas then state what those functions mean:
    - the split points;
    - the error cases;
    - the key set;
    - last-wins for duplicate keys;
    - a round trip from a header and body to the parsed document.
- **Templater** (`generator/templater.py`).
  - The mapping of template variables is the metadata with the body under `content`.
  - The article renderer always uses `article_template.html`. The page renderer uses the template it is given.
  - Jinja is a function parameter `Engine`, from a template name and the variables to a page or an error.
- **Generator** (`generator/generator.py`).
  - Configuration and directory validation, in the source's order.
  - Theme resolution with its fallback to the configured default theme, and the decision to print the fallback notice.
  - Output and page-template file names, built from the file's stem.
  - The batch loop. It sorts the two parser failures into two lists and returns the processed count. Any other error ends the batch.

Supporting modules:
- `Types` mirrors `generator/types.py` and `generator/exceptions.py`.
- `PyStr` models the Python `str` operations the parser uses:
  - `startswith`;
  - `split(":")`, which yields one more piece than there are colons;
  - `rstrip("\n")`, which removes every trailing newline;
  - `strip()`, with Python's whitespace set;
  - `"".join`.
- `Paths` models `Path / name`, `Path.name` and `Path.stem`. A dot in first or last position of a name does not start a suffix.

Modelling choices:
- The file system is the set of paths that exist.
- The configuration is the mapping `config.json` holds.
- A document is its sequence of lines, each with its `"\n"`, as Python's file iteration yields them.
- The publish directory is a mapping from output path to page.
- A `Generator` object is the datatype `SiteGenerator`, not a class, because its fields are set once at construction and never change.
- The per-file pipeline is a function from a path to a `FileOutcome`: `Saved`, `ParseFailed` or `Fatal`. The concrete article and page pipelines are built from the parser, a markdown function and the engine.

Theme lookup is asymmetric, and the model keeps it so:
- the requested theme is looked up in `templates/<theme>`;
- the default theme is looked up in `templates/themes/<default>`;
- so a requested theme that is found only under `themes/` falls back to the default.

## Model

| member | source | states |
|---|---|---|
| PyStr.Split | generator/parser.py:55 | `str.split(sep)`: exactly one more piece than separators, no piece contains the separator |
| PyStr.SplitJoin | generator/parser.py:55 | joining the pieces with the separator gives back the original line |
| PyStr.SplitAtOnlySeparator | generator/parser.py:55 | with exactly one separator the two pieces are the text before and after it |
| PyStr.RStripNewlines | generator/parser.py:43 | `rstrip("\n")` yields a prefix of the line not ending in a newline; only newlines were removed |
| PyStr.Strip | generator/parser.py:58 | `strip()` yields a result with no whitespace at either end, never longer than the input |
| PyStr.StripSurrounded | generator/parser.py:58 | stripping whitespace around a text that neither starts nor ends in whitespace gives back that text |
| PyStr.StripTrimmed | generator/parser.py:58 | `strip()` leaves a text without whitespace at either end unchanged |
| PyStr.ConcatAppend | generator/parser.py:46 | `"".join` of two concatenated line lists is the concatenation of the joins |
| PyStr.StartsWithIff | generator/parser.py:32 | `s.startswith(p)` iff `s` is `p` followed by some rest |
| Parser.FindDelimiter | generator/parser.py:31-34 | the scan stops at the first line beginning with `---` at or after its start, or at the end |
| Parser.IsDelimiterIff | generator/parser.py:32 | a line is a delimiter iff its first three characters are dashes, whatever follows |
| Parser.StripNewlines | generator/parser.py:43 | each header line is kept in order with its trailing newlines removed |
| Parser.Parse | generator/parser.py:12-20 | `parse` fails with the first failure of partition then metadata parsing, otherwise returns the body and the header mapping |
| Parser.PartitionFileContent | generator/parser.py:22-47 | the two loops over one line iterator compute exactly `SplitDocument`: NoMetadata without a delimiter, header lines between the first and second delimiter, the body after the second |
| Parser.SkipToDelimiter | generator/parser.py:31-36 | the first loop finds a delimiter iff the document has one, and leaves the iterator just after the first |
| Parser.ReadHeader | generator/parser.py:39-43 | the second loop collects exactly the lines up to the next delimiter, newlines removed, and leaves the iterator after that delimiter or at the end |
| Parser.ParseMetadata | generator/parser.py:49-60 | the loop filling the dictionary computes exactly `HeaderMap`, stopping at the first malformed line |
| Parser.ParseLine | generator/parser.py:55-58 | a line is accepted iff it has exactly one `:`, the error is InvalidMetadataSyntax with the source's message, and an accepted key holds no `:` |
| Parser.ParseLineMeaning | generator/parser.py:55-58 | a header line parses iff it has exactly one `:`; the error is InvalidMetadataSyntax with the source's message; the key is the untrimmed text before the colon, the value the stripped text after it |
| Parser.HeaderMapFails | generator/parser.py:54-57 | metadata parsing fails iff some header line does not have exactly one colon; the error is always InvalidMetadataSyntax |
| Parser.HeaderMapKeys | generator/parser.py:53-60 | the keys of the parsed mapping are exactly the header lines' keys |
| Parser.HeaderMapLastWins | generator/parser.py:58 | for a duplicated key, the value of the last line with that key wins |
| Parser.NoMetadataIff | generator/parser.py:31-36 | parsing fails with NoMetadata iff no line begins with `---` |
| Parser.SplitDocumentLayout | generator/parser.py:31-46 | lines before the opening delimiter are dropped; header = the lines strictly between the delimiters without newlines; body = concatenation of the lines after the closing delimiter, or empty without one |
| Parser.HeaderMapOfEntries | generator/parser.py:49-60 | header lines `key: value` for well-formed entries parse to the entries' mapping, later entries winning |
| Parser.DocumentSplits | generator/parser.py:22-47 | a document built from a prelude, two delimiters, entries and a body splits into the entries' texts and the joined body |
| Parser.RoundTrip | generator/parser.py:12-60 | parsing a document built from well-formed entries and a body gives back exactly that body and the entries' mapping |
| Parser.DelimiterIsPrefix | generator/parser.py:32-41 | `----` opens and `---x` closes the header: the delimiter test is a prefix test |
| Templater.JinjaVariables | generator/templater.py:35-39 | the variables' keys are the metadata keys plus `content`; `content` maps to the body; every other key keeps its metadata value |
| Templater.JinjaVariablesUnique | generator/templater.py:35-39 | those three facts determine the variable mapping completely |
| Templater.JinjaVariablesCount | generator/templater.py:37-38 | N metadata keys give N + 1 variables, or N when one key is `content` (it is overwritten by the body) |
| Templater.JinjaVariablesEqualIff | generator/templater.py:37-38 | two documents give equal variables iff equal bodies and equal metadata apart from a `content` key |
| Templater.RenderArticle | generator/templater.py:43-47 | the article renderer renders `article_template.html` with the document's variables, whatever the document |
| Templater.RenderPage | generator/templater.py:52-56 | the page renderer renders exactly the template it is given with the document's variables |
| Templater.RenderSeesOnlyVariables | generator/templater.py:35-56 | documents that differ only in a `content` metadata entry render alike |
| Paths.JoinParts | generator/generator.py:175 | `Path(dir) / name` is the directory, one `/`, then the component; two components joined onto the same directory give the same path only when they are equal |
| Paths.Name | generator/generator.py:99 | `Path.name` is the part of the path after its last `/`: a suffix without `/`, preceded by a `/` unless it is the whole path |
| Paths.Stem | generator/generator.py:133 | `Path.stem` is a prefix of the name, without `/` |
| Paths.NameOfJoin | generator/generator.py:99 | the name of `dir / name` is `name` |
| Paths.StemOfMarkdown | generator/generator.py:133 | the stem of `dir/base.md` is `base`, whatever the directory |
| Generator.GetDirectories | generator/generator.py:138-155 | fails with InvalidConfig without `project_directory`, then with a missing `content`, then with a missing `publish`; succeeds iff all three hold, with the three directories |
| Generator.NewGenerator | generator/generator.py:22-37 | construction fails exactly when directory validation does, with its error; otherwise it keeps the requested theme (`default` when none is given) and exactly the project, content and publish directories that validation returned |
| Generator.DefaultTheme | generator/generator.py:193-197 | the configured `theme`, or `default` when the configuration has none |
| Generator.TemplatesDir | generator/generator.py:175 | the templates directory is the entry `templates` directly inside the project directory |
| Generator.GetThemeDirectory | generator/generator.py:171-191 | missing `templates` is an error first; then `templates/<theme>` if present; then `templates/themes/<default>` if present; else the error naming both themes |
| Generator.ThemeNotFoundMessage | generator/generator.py:186-187 | the message starts by naming the requested theme and ends by naming the default theme |
| Generator.ResolvedThemeExists | generator/generator.py:171-191 | a resolved theme directory exists and is named after the requested or the default theme |
| Generator.SetTheme | generator/generator.py:157-169 | theme setting fails exactly when resolution fails; otherwise it copies the resolved directory to `publish/static` |
| Generator.FallbackNoticeIff | generator/generator.py:161-166 | the notice is printed iff the requested theme's directory is missing and the default has another name |
| Generator.FallbackExample | generator/generator.py:175-191 | requesting `nonexistent` falls back to `default` with a notice when `templates/themes/default` exists, and fails with the two-theme message otherwise |
| Generator.OutputPath | generator/generator.py:133 | the output file sits directly in the publish directory and is named `<stem>.html` |
| Generator.PageTemplateName | generator/generator.py:202 | the page template name is a bare file name: the file's stem followed by `_template.html` |
| Generator.OutputPathIff | generator/generator.py:130-136 | two sources share an output file iff their stems are equal |
| Generator.PageTemplateNameIff | generator/generator.py:199-202 | two pages share a template iff their stems are equal |
| Generator.OutputCollision | generator/generator.py:133 | `a/post.md` and `b/post.md` are both written to `publish/post.html` |
| Generator.GenerateSingleArticle | generator/generator.py:39-45 | a parser failure is reported as that failure; otherwise the article is rendered with `article_template.html` from its metadata and converted body, a rendering error is fatal, and the page is saved under the output path of its stem |
| Generator.GenerateSinglePage | generator/generator.py:47-56 | the same for pages, rendered with the template `PageTemplateName` gives for the file |
| Generator.ArticleEndToEnd | generator/generator.py:39-45 | a well-formed article is saved under its output path with the page rendered from its entries and its converted body |
| Generator.FirstFatal | generator/generator.py:95-103 | the position of the first file whose outcome is not caught, or the number of files |
| Generator.Details | generator/generator.py:99-103 | a failure is reported with the file's path and its final path component `Paths.Name` |
| Generator.GenerateAll | generator/generator.py:81-109 | the batch loop visits the files in order and computes `BatchResult`: the first fatal error, or the two failure lists and `total - missing - invalid`; the publish directory holds the pages saved before the stop |
| Generator.GenerateAllArticles | generator/generator.py:68-78 | a theme failure ends the run before any file; otherwise the batch over `content/articles` with the article pipeline |
| Generator.GenerateAllPages | generator/generator.py:58-66 | the same over `content/pages` with the page pipeline |
| Generator.BatchAccounting | generator/generator.py:105 | the returned count equals the number of saved files, lies between 0 and the total, and with the two list lengths adds up to the total |
| Generator.BatchFailsIff | generator/generator.py:95-103 | the batch fails iff some outcome is fatal, with the error of the first such file |
| Generator.CollectedIff | generator/generator.py:98-103 | a file is listed as missing iff its outcome is NoMetadata, and as invalid iff it is InvalidMetadataSyntax, each with its name and path |
| Generator.CollectedAppend | generator/generator.py:95-103 | the failure lists keep encounter order |
| Generator.PublishLastWins | generator/generator.py:130-136 | an output path holds the page of the last file saved to it |
| Generator.PublishUntouched | generator/generator.py:130-136 | a path no file saves to keeps its previous contents |
| Generator.PublishIdempotent | generator/generator.py:130-136 | re-running a batch over its own output with the same outcomes leaves the publish directory unchanged, because each save overwrites the whole file; the batch methods publish `Publish` over the files before the first fatal one, so this covers a re-run of them too |

## Left out

- Markdown conversion (`markdown.markdown`, generator/generator.py:43 and 51) is a parameter, a function on strings.
- Jinja is a parameter `Engine`: the environment built at class definition (generator/templater.py:23-25), `get_template` and `render`. `Templater.get_templates_list` is not modelled.
- Reading the document is a parameter. The parser takes the document's lines.
- `rglob` discovery is a parameter giving the files in enumeration order. Writing the page is the update of the publish mapping.
- `shutil.copytree` of the theme is not performed. `Generator.SetTheme` only names its source and destination.
- Errors from reading a file, writing a page or copying the theme are not modelled. Every such error would end the batch as `Fatal` does.
- Colored console output is not modelled: `_print_errors` and the text of the fallback notice. Only the decision to print the notice is.
- `Path` normalisation is not modelled (repeated or trailing `/`, `.` components). Paths are strings joined with `/`.
- Python's dictionary insertion order is not modelled. A mapping's contents are, and so is the order of the failure lists.
- `get_config` is read twice, once for the directories and once for the default theme. The model uses one configuration for both.
- `ConfigNotFound` is never raised by the core. A missing `config.json` surfaces as Python's `FileNotFoundError` from `helpers.py`, which is not part of this model.
- Dafny values cannot be mutated. So the templater leaving its input's metadata unchanged (generator/templater.py:37) holds by construction and needs no lemma.
- builder/builder.py, gen.py, helpers.py and server/server.py are not part of this model: project scaffolding, command line and HTTP server.
