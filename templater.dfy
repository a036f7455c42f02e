/** The templater (generator/templater.py): the variables handed to a
    template and the choice of template. Jinja itself (its environment, the
    lookup of a template by name and the rendering) is the `Engine`
    parameter, a function from a template name and the variables to the
    rendered page or the engine's error. */
module Templater {
  import opened Types

  type Variables = map<string, string>

  /** `JINJA_ENV.get_template(name).render(variables)` */
  type Engine = (string, Variables) -> Result<string, FatalError>

  /** The one template every article is rendered with. */
  const ArticleTemplate: string := "article_template.html"

  /** The key under which the body is handed to the template. */
  const ContentKey: string := "content"

  /** `Templater._create_jinja_variables`: a fresh mapping holding the
      metadata, then the body under "content" (which overrides a metadata
      key of that name). */
  function JinjaVariables(filedata: ParsedFileData): (vars: Variables)
    ensures vars.Keys == filedata.metadata.Keys + {ContentKey}
    ensures vars[ContentKey] == filedata.content
    ensures forall k :: k in filedata.metadata && k != ContentKey ==> vars[k] == filedata.metadata[k]
  {
    var jinjaVariables := filedata.metadata;
    jinjaVariables[ContentKey := filedata.content]
  }

  /** The three facts above pin the variables down: any mapping with the
      metadata's keys plus "content", the body under "content" and the
      metadata's values elsewhere IS the variable mapping. */
  lemma JinjaVariablesUnique(filedata: ParsedFileData, vars: Variables)
    requires vars.Keys == filedata.metadata.Keys + {ContentKey}
    requires vars[ContentKey] == filedata.content
    requires forall k :: k in filedata.metadata && k != ContentKey ==> vars[k] == filedata.metadata[k]
    ensures vars == JinjaVariables(filedata)
  {
    var expected := JinjaVariables(filedata);
    forall k | k in vars ensures vars[k] == expected[k] {
    }
  }

  /** A document with N header keys gets exactly N + 1 variables, or N when
      one of its keys is itself "content". */
  lemma JinjaVariablesCount(filedata: ParsedFileData)
    ensures |JinjaVariables(filedata)| ==
              |filedata.metadata| + (if ContentKey in filedata.metadata then 0 else 1)
  {
    var vars := JinjaVariables(filedata);
    if ContentKey in filedata.metadata {
      assert vars.Keys == filedata.metadata.Keys;
    } else {
      assert |filedata.metadata.Keys + {ContentKey}| == |filedata.metadata.Keys| + 1;
    }
  }

  /** Two documents give the same variables exactly when they have the same
      body and agree on every metadata key but "content": a metadata entry
      named "content" never reaches the template. */
  lemma JinjaVariablesEqualIff(a: ParsedFileData, b: ParsedFileData)
    ensures JinjaVariables(a) == JinjaVariables(b)
            <==> a.content == b.content && a.metadata - {ContentKey} == b.metadata - {ContentKey}
  {
    var va, vb := JinjaVariables(a), JinjaVariables(b);
    if va == vb {
      assert a.content == va[ContentKey];
      var ma, mb := a.metadata - {ContentKey}, b.metadata - {ContentKey};
      assert ma.Keys == va.Keys - {ContentKey};
      assert mb.Keys == vb.Keys - {ContentKey};
      forall k | k in ma ensures ma[k] == mb[k] {
        assert ma[k] == va[k];
      }
    }
    if a.content == b.content && a.metadata - {ContentKey} == b.metadata - {ContentKey} {
      forall k | k in a.metadata && k != ContentKey ensures k in b.metadata {
        assert k in a.metadata - {ContentKey};
      }
      forall k | k in b.metadata && k != ContentKey ensures k in a.metadata {
        assert k in b.metadata - {ContentKey};
      }
      forall k | k in va ensures va[k] == vb[k] {
        if k != ContentKey {
          assert (a.metadata - {ContentKey})[k] == a.metadata[k];
          assert (b.metadata - {ContentKey})[k] == b.metadata[k];
        }
      }
    }
  }

  /** `ArticleTemplater.render`: always the article template. */
  function RenderArticle(engine: Engine, filedata: ParsedFileData): (r: Result<string, FatalError>)
    ensures r == engine(ArticleTemplate, JinjaVariables(filedata))
  {
    var jinjaVariables := JinjaVariables(filedata);
    engine(ArticleTemplate, jinjaVariables)
  }

  /** `PageTemplater.render`: the template it is told to use. */
  function RenderPage(engine: Engine, filedata: ParsedFileData, template: string): (r: Result<string, FatalError>)
    ensures r == engine(template, JinjaVariables(filedata))
  {
    var jinjaVariables := JinjaVariables(filedata);
    engine(template, jinjaVariables)
  }

  /** The output of either renderer depends on the document only through
      its variables; so two documents that differ only in a "content"
      metadata entry render alike. */
  lemma RenderSeesOnlyVariables(engine: Engine, a: ParsedFileData, b: ParsedFileData, template: string)
    requires a.content == b.content && a.metadata - {ContentKey} == b.metadata - {ContentKey}
    ensures RenderArticle(engine, a) == RenderArticle(engine, b)
    ensures RenderPage(engine, a, template) == RenderPage(engine, b, template)
  {
    JinjaVariablesEqualIff(a, b);
  }
}
