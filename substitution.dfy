/**
 * Placeholder substitution as `replace_assets_in_content` performs it: for
 * each registry entry in the registry's iteration order, each of the entry's
 * literal placeholder texts is replaced everywhere in the content. Stylesheet
 * entries are inlined as text, image entries as a "data" URL (section 2 of
 * RFC 2397), and entries of unknown kind are ignored.
 */
module Substitution {
  import opened Text
  import opened Assets

  /** The two stylesheet tags, double- and single-quoted, with the spacing the converter looks for. */
  function CssPatterns(name: string): (ps: seq<string>)
    ensures |ps| == 2 && forall i | 0 <= i < |ps| :: StartsWith(ps[i], "{{ asset ")
  {
    ["{{ asset \"" + name + "\" \"utf8\" }}", "{{ asset '" + name + "' 'utf8' }}"]
  }

  /** The two image tags, then the two `src` attributes that wrap an unspaced tag. */
  function ImagePatterns(name: string): (ps: seq<string>)
    ensures |ps| == 4
    ensures StartsWith(ps[0], "{{ asset ") && StartsWith(ps[1], "{{ asset ")
    ensures StartsWith(ps[2], "src=\"{{asset ") && StartsWith(ps[3], "src=\"{{asset ")
  {
    [ "{{ asset \"" + name + "\" \"dataURI\" }}",
      "{{ asset '" + name + "' 'dataURI' }}",
      "src=\"{{asset '" + name + "' 'dataURI'}}\"",
      "src=\"{{asset \"" + name + "\" \"dataURI\"}}\"" ]
  }

  /** `data:<mime>;base64,<content>`. */
  function DataUri(a: Asset): string
  {
    "data:" + a.mimeType + ";base64," + a.content
  }

  /** What replaces pattern `p` of entry `a`: the text for a stylesheet, the data URL for an image, kept inside `src="..."` when the pattern is a `src` attribute. */
  function Replacement(p: string, a: Asset): string
  {
    if a.kind == Css then a.content
    else if StartsWith(p, "src=") then "src=\"" + DataUri(a) + "\""
    else DataUri(a)
  }

  function PatternsFor(name: string, a: Asset): (ps: seq<string>)
    ensures forall i | 0 <= i < |ps| :: ps[i] != []
  {
    match a.kind
    case Css => CssPatterns(name)
    case Image => ImagePatterns(name)
    case Unknown => []
  }

  /** Replace each pattern of `ps` in turn, each in the result of the ones before. */
  function ApplyPatterns(ps: seq<string>, a: Asset, content: string): string
    requires forall i | 0 <= i < |ps| :: ps[i] != []
    decreases |ps|
  {
    if ps == [] then content
    else ApplyPatterns(ps[1..], a, ReplaceAll(content, ps[0], Replacement(ps[0], a)))
  }

  function ApplyAsset(name: string, a: Asset, content: string): string
  {
    ApplyPatterns(PatternsFor(name, a), a, content)
  }

  predicate InRegistry(names: seq<string>, assets: map<string, Asset>)
  {
    forall i | 0 <= i < |names| :: names[i] in assets
  }

  /** The content after every entry named in `names`, in that order, has been applied. */
  function SubstituteAll(names: seq<string>, assets: map<string, Asset>, content: string): string
    requires InRegistry(names, assets)
    decreases |names|
  {
    if names == [] then content
    else SubstituteAll(names[1..], assets, ApplyAsset(names[0], assets[names[0]], content))
  }

  /**
   * An image entry's two tags become the data URL and its two `src`
   * attributes become `src="<data URL>"`; a stylesheet entry's two tags
   * become its content.
   */
  lemma ReplacementsOfPatterns(name: string, a: Asset)
    ensures a.kind == Image ==>
      var ps := ImagePatterns(name);
      Replacement(ps[0], a) == DataUri(a) && Replacement(ps[1], a) == DataUri(a)
      && Replacement(ps[2], a) == "src=\"" + DataUri(a) + "\""
      && Replacement(ps[3], a) == "src=\"" + DataUri(a) + "\""
    ensures a.kind == Css ==>
      forall p | p in CssPatterns(name) :: Replacement(p, a) == a.content
  {
    var ps := ImagePatterns(name);
    assert ps[0][0] == '{' && ps[1][0] == '{';
    assert ps[2][..4] == "src=" && ps[3][..4] == "src=";
  }

  /** A pattern that does not occur is not replaced, whatever the guard `pattern in content` decides. */
  lemma {:induction false} ApplyPatternsAbsent(ps: seq<string>, a: Asset, content: string)
    requires forall i | 0 <= i < |ps| :: ps[i] != [] && !Contains(content, ps[i])
    ensures ApplyPatterns(ps, a, content) == content
    decreases |ps|
  {
    if ps != [] {
      ReplaceAbsent(content, ps[0], Replacement(ps[0], a));
      ApplyPatternsAbsent(ps[1..], a, content);
    }
  }

  /** None of the entries' patterns occurs in `content`. */
  predicate NoPlaceholderOf(names: seq<string>, assets: map<string, Asset>, content: string)
    requires InRegistry(names, assets)
  {
    forall i, j | 0 <= i < |names| && 0 <= j < |PatternsFor(names[i], assets[names[i]])| ::
      !Contains(content, PatternsFor(names[i], assets[names[i]])[j])
  }

  /** If no entry's pattern occurs in the content, the content comes back unchanged; in particular with an empty registry. */
  lemma {:induction false} NoPlaceholderUnchanged(names: seq<string>, assets: map<string, Asset>, content: string)
    requires InRegistry(names, assets) && NoPlaceholderOf(names, assets, content)
    ensures SubstituteAll(names, assets, content) == content
    decreases |names|
  {
    if names != [] {
      var ps := PatternsFor(names[0], assets[names[0]]);
      ApplyPatternsAbsent(ps, assets[names[0]], content);
      assert forall i | 0 <= i < |names[1..]| :: names[1..][i] == names[i + 1];
      NoPlaceholderUnchanged(names[1..], assets, content);
    }
  }

  /** Every pattern contains `{{`: content without `{{` is returned unchanged whatever the registry holds. */
  lemma NoBracesUnchanged(names: seq<string>, assets: map<string, Asset>, content: string)
    requires InRegistry(names, assets) && !Contains(content, "{{")
    ensures SubstituteAll(names, assets, content) == content
  {
    forall i, j | 0 <= i < |names| && 0 <= j < |PatternsFor(names[i], assets[names[i]])|
      ensures !Contains(content, PatternsFor(names[i], assets[names[i]])[j])
    {
      var p := PatternsFor(names[i], assets[names[i]])[j];
      assert StartsWith(p, "{{ asset ") || StartsWith(p, "src=\"{{asset ");
      var at: nat := if StartsWith(p, "{{ asset ") then 0 else 5;
      assert p[at..at + 2] == "{{";
      assert OccursAt(p, "{{", at);
      OccursAtContains(p, "{{", at);
      ContainsTransitive(content, p, "{{");
    }
    NoPlaceholderUnchanged(names, assets, content);
  }

  /** The names of entries that are not of unknown kind, in order. */
  function Rewriting(names: seq<string>, assets: map<string, Asset>): (r: seq<string>)
    requires InRegistry(names, assets)
    ensures InRegistry(r, assets)
    decreases |names|
  {
    if names == [] then []
    else if assets[names[0]].kind == Unknown then Rewriting(names[1..], assets)
    else [names[0]] + Rewriting(names[1..], assets)
  }

  /** Entries of unknown kind never cause a rewrite: dropping them changes nothing. */
  lemma {:induction false} UnknownIgnored(names: seq<string>, assets: map<string, Asset>, content: string)
    requires InRegistry(names, assets)
    ensures SubstituteAll(Rewriting(names, assets), assets, content) == SubstituteAll(names, assets, content)
    decreases |names|
  {
    if names != [] {
      var rest := names[1..];
      if assets[names[0]].kind == Unknown {
        assert ApplyAsset(names[0], assets[names[0]], content) == content;
        UnknownIgnored(rest, assets, content);
      } else {
        var next := ApplyAsset(names[0], assets[names[0]], content);
        UnknownIgnored(rest, assets, next);
        var r := [names[0]] + Rewriting(rest, assets);
        assert r[0] == names[0] && r[1..] == Rewriting(rest, assets);
      }
    }
  }

  /** Substitution over a list of names is the substitution over its first part, then over the rest. */
  lemma {:induction false} SubstituteAppend(xs: seq<string>, ys: seq<string>, assets: map<string, Asset>, content: string)
    requires InRegistry(xs, assets) && InRegistry(ys, assets)
    ensures InRegistry(xs + ys, assets)
    ensures SubstituteAll(xs + ys, assets, content)
      == SubstituteAll(ys, assets, SubstituteAll(xs, assets, content))
    decreases |xs|
  {
    assert forall i | 0 <= i < |xs + ys| :: (xs + ys)[i] in assets by {
      forall i | 0 <= i < |xs + ys| ensures (xs + ys)[i] in assets {
        if i < |xs| { assert (xs + ys)[i] == xs[i]; } else { assert (xs + ys)[i] == ys[i - |xs|]; }
      }
    }
    if xs != [] {
      assert (xs + ys)[1..] == xs[1..] + ys;
      SubstituteAppend(xs[1..], ys, assets, ApplyAsset(xs[0], assets[xs[0]], content));
    } else {
      assert xs + ys == ys;
    }
  }

  /**
   * A lone stylesheet tag, with the stylesheet's own text free of the other
   * tag, resolves to that text.
   */
  lemma CssTagResolves(name: string, a: Asset)
    requires a.kind == Css
    requires !Contains(a.content, CssPatterns(name)[1])
    ensures ApplyAsset(name, a, CssPatterns(name)[0]) == a.content
  {
    var ps := CssPatterns(name);
    var p := ps[0];
    assert OccursAt(p, p, 0);
    ReplaceAtFirst(p, p, a.content, 0);
    assert p[..0] == [] && p[|p|..] == [];
    assert ReplaceAll(p, p, a.content) == a.content;
    ReplaceAbsent(a.content, ps[1], a.content);
    assert ps[1..][1..] == [];
    calc {
      ApplyAsset(name, a, p);
      ApplyPatterns(ps, a, p);
      ApplyPatterns(ps[1..], a, ReplaceAll(p, p, Replacement(p, a)));
      ApplyPatterns(ps[1..], a, a.content);
      ApplyPatterns(ps[1..][1..], a, ReplaceAll(a.content, ps[1], Replacement(ps[1], a)));
      ApplyPatterns([], a, a.content);
    }
  }

  /**
   * The unspaced `src` attribute holds no spaced tag: where a tag's ` }}`
   * would fall, the attribute has `dataURI'` instead.
   */
  lemma TagsAbsentFromAttribute(name: string)
    ensures var ps := ImagePatterns(name);
      !Contains(ps[2], ps[0]) && !Contains(ps[2], ps[1])
  {
    var ps := ImagePatterns(name);
    var tail := "' 'dataURI'}}\"";
    assert ps[2] == "src=\"{{asset '" + name + tail;
    var k := |name| + 21;
    forall j | k <= j <= |ps[2]| - |ps[0]| + k
      ensures ps[2][j] != ' '
    {
      assert ps[2][j] == tail[j - |name| - 14];
    }
    assert ps[0][k] == ' ' && ps[1][k] == ' ';
    MismatchAbsent(ps[2], ps[0], k);
    MismatchAbsent(ps[2], ps[1], k);
  }

  /**
   * A lone single-quoted `src` attribute of an image entry becomes
   * `src="<data URL>"`, provided the data URL does not itself hold the
   * double-quoted attribute that is replaced after it.
   */
  lemma SrcTagResolves(name: string, a: Asset)
    requires a.kind == Image
    requires !Contains("src=\"" + DataUri(a) + "\"", ImagePatterns(name)[3])
    ensures ApplyAsset(name, a, ImagePatterns(name)[2]) == "src=\"" + DataUri(a) + "\""
  {
    var ps := ImagePatterns(name);
    var p := ps[2];
    var out := "src=\"" + DataUri(a) + "\"";
    ReplacementsOfPatterns(name, a);
    TagsAbsentFromAttribute(name);
    ReplaceAbsent(p, ps[0], Replacement(ps[0], a));
    ReplaceAbsent(p, ps[1], Replacement(ps[1], a));
    assert OccursAt(p, p, 0);
    ReplaceAtFirst(p, p, out, 0);
    assert p[..0] == [] && p[|p|..] == [];
    assert ReplaceAll(p, p, out) == out;
    ReplaceAbsent(out, ps[3], Replacement(ps[3], a));
    assert ps[1..][1..][1..][1..] == [];
    calc {
      ApplyAsset(name, a, p);
      ApplyPatterns(ps, a, p);
      ApplyPatterns(ps[1..], a, p);
      ApplyPatterns(ps[1..][1..], a, p);
      ApplyPatterns(ps[1..][1..][1..], a, out);
      ApplyPatterns(ps[1..][1..][1..][1..], a, out);
    }
  }
}
