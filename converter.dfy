/**
 * The converter object: its asset registry is a Python dict, modelled as the
 * map of entries plus the dict's iteration order. Reading the export archive
 * and the descriptor files is done by the caller, which passes the parsed
 * descriptors of a directory in listing order, or None when the directory
 * does not exist.
 */
module Converter {
  import opened Wrappers
  import opened Text
  import opened Assets
  import opened Substitution
  import opened Templates

  function Listing<T>(dir: Option<seq<T>>): seq<T>
  {
    if dir.Some? then dir.value else []
  }

  /**
   * The branch of `process_assets` that builds a named entry: images keep
   * their content and get `image/<extension>`, stylesheets go through the
   * Base64 heuristic, anything else is `application/octet-stream`.
   */
  method ClassifyAsset(name: string, content: string) returns (a: Asset)
    ensures a == Classify(name, content)
  {
    var lowered := Lower(name);
    if EndsWithAny(lowered, ImageSuffixes) {
      a := Asset(content, Image, "image/" + AfterLastDot(lowered));
    } else if EndsWith(lowered, ".css") {
      a := Asset(DecodeBase64IfNeeded(content), Css, "text/css");
    } else {
      a := Asset(content, Unknown, "application/octet-stream");
    }
  }

  /** The stylesheet branch of `replace_assets_in_content`: each tag that occurs is replaced by the entry's text. */
  method ReplaceCssPatterns(content: string, name: string, a: Asset) returns (r: string)
    requires a.kind == Css
    ensures r == ApplyAsset(name, a, content)
  {
    r := content;
    var patterns := CssPatterns(name);
    for j := 0 to |patterns|
      invariant ApplyPatterns(patterns[j..], a, r) == ApplyPatterns(patterns, a, content)
    {
      var pattern := patterns[j];
      if Contains(r, pattern) {
        r := ReplaceAll(r, pattern, a.content);
      } else {
        ReplaceAbsent(r, pattern, a.content);
      }
    }
  }

  /**
   * The image branch of `replace_assets_in_content`: each tag that occurs is
   * replaced by the data URL, each `src` attribute by `src="<data URL>"`.
   */
  method ReplaceImagePatterns(content: string, name: string, a: Asset) returns (r: string)
    requires a.kind == Image
    ensures r == ApplyAsset(name, a, content)
  {
    r := content;
    var patterns := ImagePatterns(name);
    var dataUri := "data:" + a.mimeType + ";base64," + a.content;
    for j := 0 to |patterns|
      invariant ApplyPatterns(patterns[j..], a, r) == ApplyPatterns(patterns, a, content)
    {
      var pattern := patterns[j];
      if Contains(r, pattern) {
        if StartsWith(pattern, "src=") {
          r := ReplaceAll(r, pattern, "src=\"" + dataUri + "\"");
        } else {
          r := ReplaceAll(r, pattern, dataUri);
        }
      } else {
        ReplaceAbsent(r, pattern, Replacement(pattern, a));
      }
    }
  }

  class JSReportExportConverter {
    /** `self.assets`: the registry entries by name. */
    var assets: map<string, Asset>
    /** The iteration order of `self.assets`. */
    var order: seq<string>

    ghost predicate Valid()
      reads this
    {
      OrderOf(order, assets) && forall n | n in assets :: Classified(n, assets[n])
    }

    constructor ()
      ensures Valid() && assets == map[] && order == []
    {
      assets := map[];
      order := [];
    }

    /**
     * `process_assets`: registers every named descriptor of the assets
     * directory in listing order, a later descriptor overwriting an earlier
     * one of the same name.
     */
    method ProcessAssets(assetsDir: Option<seq<Descriptor>>)
      requires Valid()
      modifies this
      ensures Valid()
      ensures assets == RegisterAll(old(assets), Listing(assetsDir))
      ensures order == InsertionOrder(old(order), Listing(assetsDir))
    {
      if assetsDir.Some? {
        var ds := assetsDir.value;
        for i := 0 to |ds|
          invariant assets == RegisterAll(old(assets), ds[..i])
          invariant order == InsertionOrder(old(order), ds[..i])
        {
          assert ds[..i + 1][..i] == ds[..i];
          var assetName := ds[i].name;
          var content := if ds[i].content.Some? then ds[i].content.value else "";
          if assetName.None? || assetName.value == "" {
            continue;
          }
          var name := assetName.value;
          var entry := ClassifyAsset(name, content);
          InsertionOrderLists(old(order), old(assets), ds[..i]);
          if name !in assets {
            order := order + [name];
          }
          assets := assets[name := entry];
        }
        assert ds[..|ds|] == ds;
      }
      InsertionOrderLists(old(order), old(assets), Listing(assetsDir));
      RegisterAllClassified(old(assets), Listing(assetsDir));
    }

    /**
     * `replace_assets_in_content`: for every entry in iteration order, each of
     * its patterns that occurs in the content is replaced everywhere.
     */
    method ReplaceAssetsInContent(content: string) returns (r: string)
      requires Valid()
      ensures r == SubstituteAll(order, assets, content)
    {
      r := content;
      for i := 0 to |order|
        invariant SubstituteAll(order[i..], assets, r) == SubstituteAll(order, assets, content)
      {
        var name := order[i];
        var a := assets[name];
        if a.kind == Css {
          r := ReplaceCssPatterns(r, name, a);
        } else if a.kind == Image {
          r := ReplaceImagePatterns(r, name, a);
        }
        assert order[i..][1..] == order[i + 1..];
      }
    }

    /**
     * The first half of the loop body of `process_templates`: a copy of the
     * record with its `content` rewritten, or the TypeError of searching a
     * content that is not a string.
     */
    method RewriteTemplate(t: Record) returns (r: Result<Record, TemplateError>)
      requires Valid()
      ensures r == RewriteRecord(order, assets, t)
    {
      var template := t;
      if "content" in template {
        match template["content"]
        case Str(s) =>
          var rewritten := ReplaceAssetsInContent(s);
          template := template["content" := Str(rewritten)];
        case NonString(_) =>
          if HasRewritingAsset(order, assets) {
            return Err(ContentNotString);
          }
      }
      return Ok(template);
    }

    /**
     * `process_templates`: each record of the templates directory is copied,
     * its `content` rewritten when present, and appended to the result; a
     * record without `name` stops the run.
     */
    method ProcessTemplates(templatesDir: Option<seq<Record>>) returns (r: Result<seq<Record>, TemplateError>)
      requires Valid()
      ensures r == ProcessTemplatesSpec(order, assets, templatesDir)
    {
      var templates: seq<Record> := [];
      if templatesDir.Some? {
        var ts := templatesDir.value;
        for i := 0 to |ts|
          invariant ProcessAll(order, assets, ts[..i]) == Ok(templates)
        {
          assert ts[..i + 1][..i] == ts[..i];
          var rewritten := RewriteTemplate(ts[i]);
          if rewritten.Err? {
            ProcessAllStopsAtError(order, assets, ts, i + 1);
            return Err(rewritten.error);
          }
          var template := rewritten.value;
          templates := templates + [template];
          if "name" !in template {
            ProcessAllStopsAtError(order, assets, ts, i + 1);
            return Err(MissingName);
          }
        }
        assert ts[..|ts|] == ts;
      }
      return Ok(templates);
    }

    /** `convert`: the registry is built from the assets directory, then the templates are assembled against it. */
    method Convert(assetsDir: Option<seq<Descriptor>>, templatesDir: Option<seq<Record>>)
      returns (r: Result<seq<Record>, TemplateError>)
      requires Valid()
      modifies this
      ensures Valid()
      ensures assets == RegisterAll(old(assets), Listing(assetsDir))
      ensures order == InsertionOrder(old(order), Listing(assetsDir))
      ensures r == ProcessTemplatesSpec(order, assets, templatesDir)
    {
      ProcessAssets(assetsDir);
      r := ProcessTemplates(templatesDir);
    }
  }
}
