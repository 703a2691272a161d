/**
 * The asset side of the converter: the base64 heuristic applied to stylesheet
 * content, the classification of an asset by its file name, and the registry
 * that asset descriptors build, as functions of the descriptors read so far.
 */
module Assets {
  import opened Wrappers
  import opened Text
  import Base64
  import Utf8

  /**
   * The converter's `decode_base64_if_needed`: text of the base64 shape is
   * decoded and read as UTF-8; text of another shape, and text on which either
   * step fails, comes back unchanged.
   */
  function DecodeBase64IfNeeded(content: string): (r: string)
    ensures r != content ==> Base64.MatchesPattern(content)
  {
    if !Base64.MatchesPattern(content) then content
    else
      match Base64.Decode(content)
      case None => content
      case Some(bytes) =>
        match Utf8.Decode(bytes)
        case None => content
        case Some(text) => text
  }

  /** Text whose UTF-8 bytes were base64-encoded is recovered exactly. */
  lemma DecodeRecoversText(t: string)
    ensures DecodeBase64IfNeeded(Base64.Encode(Utf8.Encode(t))) == t
  {
    var b := Utf8.Encode(t);
    Base64.EncodeMatchesPattern(b);
    Base64.RoundTrip(b);
    Utf8.RoundTrip(t);
  }

  /** Some character shows the text is not of the base64 shape. */
  predicate NotBase64Shaped(s: string)
  {
    (exists i | 0 <= i < |s| ::
      !Base64.IsAlphabetChar(s[i]) && s[i] != '=' && !(i == |s| - 1 && s[i] == '\n'))
    || (exists i, j | 0 <= i < j < |s| :: s[i] == '=' && Base64.IsAlphabetChar(s[j]))
    || (exists i | 0 <= i && i + 2 < |s| :: s[i] == '=' && s[i + 1] == '=' && s[i + 2] == '=')
  }

  /**
   * A stray character, a pad followed by data, or a run of three pads leaves
   * the content as it is.
   */
  lemma UnshapedUnchanged(s: string)
    requires NotBase64Shaped(s)
    ensures DecodeBase64IfNeeded(s) == s
  {
    Base64.MatchingText(s);
  }

  /**
   * Text of the base64 shape whose padding the decoder refuses (one data
   * character past a full quantum, or too few pads) is left unchanged.
   */
  lemma BadPaddingUnchanged(s: string, d: string, k: nat, nl: bool)
    requires Base64.Shaped(s, d, k, nl) && !Base64.PaddingAccepted(|d| % 4, k)
    ensures DecodeBase64IfNeeded(s) == s
  {
    Base64.DecodeShaped(s, d, k, nl);
  }

  /**
   * Text of the base64 shape with acceptable padding becomes the UTF-8 text of
   * its data characters' bytes, or stays unchanged if those bytes are not UTF-8.
   */
  lemma ShapedDecodes(s: string, d: string, k: nat, nl: bool)
    requires Base64.Shaped(s, d, k, nl) && Base64.PaddingAccepted(|d| % 4, k)
    ensures var bytes := Base64.SextetsToBytes(Base64.Values(d));
      DecodeBase64IfNeeded(s) == match Utf8.Decode(bytes) case Some(text) => text case None => s
  {
    Base64.DecodeShaped(s, d, k, nl);
    Base64.ShapeMatchesPattern(s, d, k, nl);
  }

  datatype Kind = Image | Css | Unknown

  /** A registry entry: the content kept, its kind and its MIME type. */
  datatype Asset = Asset(content: string, kind: Kind, mimeType: string)

  /** An asset descriptor as parsed: `name` and `content` may be missing. */
  datatype Descriptor = Descriptor(name: Option<string>, content: Option<string>)

  const ImageSuffixes: seq<string> := [".png", ".jpg", ".jpeg", ".gif"]
  const ImageExtensions: seq<string> := ["png", "jpg", "jpeg", "gif"]

  predicate EndsWithAny(s: string, suffixes: seq<string>)
  {
    exists i | 0 <= i < |suffixes| :: EndsWith(s, suffixes[i])
  }

  /** The kind a name gets: its lower-cased form ends in an image suffix, in `.css`, or in neither. */
  function KindOf(name: string): Kind
  {
    var lowered := Lower(name);
    if EndsWithAny(lowered, ImageSuffixes) then Image
    else if EndsWith(lowered, ".css") then Css
    else Unknown
  }

  function MimeOf(name: string): string
  {
    match KindOf(name)
    case Image => "image/" + AfterLastDot(Lower(name))
    case Css => "text/css"
    case Unknown => "application/octet-stream"
  }

  /** The entry a named descriptor gives; only stylesheet content goes through the heuristic. */
  function Classify(name: string, content: string): Asset
  {
    var kind := KindOf(name);
    Asset(if kind == Css then DecodeBase64IfNeeded(content) else content, kind, MimeOf(name))
  }

  /** The entry is the one its name's kind and MIME type call for. */
  predicate Classified(name: string, a: Asset)
  {
    a.kind == KindOf(name) && a.mimeType == MimeOf(name)
  }

  /**
   * An image name gets MIME type `image/` followed by its lower-cased
   * extension, and its content is kept as given.
   */
  lemma ImageClassification(name: string, content: string)
    requires KindOf(name) == Image
    ensures var a := Classify(name, content);
      a.content == content &&
      exists i | 0 <= i < |ImageExtensions| ::
        EndsWith(Lower(name), "." + ImageExtensions[i]) && a.mimeType == "image/" + ImageExtensions[i]
  {
    var lowered := Lower(name);
    var i :| 0 <= i < |ImageSuffixes| && EndsWith(lowered, ImageSuffixes[i]);
    var e := ImageExtensions[i];
    assert ImageSuffixes[i] == "." + e;
    assert '.' !in e;
    AfterLastDotOfExtension(lowered, e);
  }

  /** A stylesheet name gets `text/css` and its content goes through the heuristic; any other name gets `application/octet-stream` and keeps its content. */
  lemma OtherClassification(name: string, content: string)
    requires KindOf(name) != Image
    ensures var a := Classify(name, content);
      (EndsWith(Lower(name), ".css") ==>
        a.kind == Css && a.mimeType == "text/css" && a.content == DecodeBase64IfNeeded(content))
      && (!EndsWith(Lower(name), ".css") ==>
        a.kind == Unknown && a.mimeType == "application/octet-stream" && a.content == content)
  {
  }

  lemma LowerIdempotent(s: string)
    ensures Lower(Lower(s)) == Lower(s)
  {
  }

  /** Classification ignores the case of ASCII letters. */
  lemma ClassifyIgnoresCase(name: string, content: string)
    ensures Classify(Lower(name), content) == Classify(name, content)
  {
    LowerIdempotent(name);
  }

  /** The key a descriptor is registered under: none when its name is missing or empty. */
  function KeyOf(d: Descriptor): Option<string>
  {
    if d.name.Some? && d.name.value != "" then d.name else None
  }

  /** `asset_data.get('content', '')`. */
  function ContentOf(d: Descriptor): string
  {
    if d.content.Some? then d.content.value else ""
  }

  /**
   * One descriptor's effect on the registry: a nameless one changes nothing;
   * otherwise exactly its name is set, overwriting an earlier entry, and every
   * other key keeps its entry.
   */
  function Register(m: map<string, Asset>, d: Descriptor): (r: map<string, Asset>)
    ensures KeyOf(d).None? ==> r == m
    ensures KeyOf(d).Some? ==>
      var n := KeyOf(d).value;
      r.Keys == m.Keys + {n} && r[n] == Classify(n, ContentOf(d))
      && forall k | k in m && k != n :: r[k] == m[k]
  {
    match KeyOf(d)
    case None => m
    case Some(n) => m[n := Classify(n, ContentOf(d))]
  }

  /** The registry after the descriptors `ds`, read in listing order, starting from `m`. */
  function RegisterAll(m: map<string, Asset>, ds: seq<Descriptor>): map<string, Asset>
    decreases |ds|
  {
    if ds == [] then m else Register(RegisterAll(m, ds[..|ds| - 1]), ds[|ds| - 1])
  }

  /**
   * The iteration order of the registry (a Python dict): a new key goes to the
   * end, an overwritten key keeps its place.
   */
  function InsertionOrder(order: seq<string>, ds: seq<Descriptor>): seq<string>
    decreases |ds|
  {
    if ds == [] then order
    else
      var o := InsertionOrder(order, ds[..|ds| - 1]);
      match KeyOf(ds[|ds| - 1])
      case None => o
      case Some(n) => if n in o then o else o + [n]
  }

  predicate Distinct(s: seq<string>)
  {
    forall i, j | 0 <= i < j < |s| :: s[i] != s[j]
  }

  /** `order` lists the keys of `m`, each once. */
  predicate OrderOf(order: seq<string>, m: map<string, Asset>)
  {
    Distinct(order) && (forall n | n in m :: n in order) && (forall i | 0 <= i < |order| :: order[i] in m)
  }

  /** Some descriptor among `ds` is registered under `k`. */
  predicate Names(ds: seq<Descriptor>, k: string)
  {
    exists i | 0 <= i < |ds| :: KeyOf(ds[i]) == Some(k)
  }

  /** The registry holds exactly the keys it started with and the names of the descriptors read. */
  lemma {:induction false} RegisterAllKeys(m: map<string, Asset>, ds: seq<Descriptor>, k: string)
    ensures k in RegisterAll(m, ds) <==> k in m || Names(ds, k)
    decreases |ds|
  {
    if ds != [] {
      var init := ds[..|ds| - 1];
      RegisterAllKeys(m, init, k);
      if Names(init, k) {
        var i :| 0 <= i < |init| && KeyOf(init[i]) == Some(k);
        assert KeyOf(ds[i]) == Some(k);
      }
      if Names(ds, k) && KeyOf(ds[|ds| - 1]) != Some(k) {
        var i :| 0 <= i < |ds| && KeyOf(ds[i]) == Some(k);
        assert KeyOf(init[i]) == Some(k);
      }
    }
  }

  /** A name's entry is the one its last descriptor gives: later descriptors win. */
  lemma {:induction false} RegisterAllLastWins(m: map<string, Asset>, ds: seq<Descriptor>, k: string, i: nat)
    requires i < |ds| && KeyOf(ds[i]) == Some(k)
    requires forall j | i < j < |ds| :: KeyOf(ds[j]) != Some(k)
    ensures k in RegisterAll(m, ds) && RegisterAll(m, ds)[k] == Classify(k, ContentOf(ds[i]))
    decreases |ds|
  {
    if i < |ds| - 1 {
      RegisterAllLastWins(m, ds[..|ds| - 1], k, i);
    }
  }

  /** A name no descriptor carries keeps its entry, or stays absent. */
  lemma {:induction false} RegisterAllUntouched(m: map<string, Asset>, ds: seq<Descriptor>, k: string)
    requires !Names(ds, k)
    ensures k in RegisterAll(m, ds) <==> k in m
    ensures k in m ==> RegisterAll(m, ds)[k] == m[k]
    decreases |ds|
  {
    if ds != [] {
      var init := ds[..|ds| - 1];
      assert forall i | 0 <= i < |init| :: init[i] == ds[i];
      RegisterAllUntouched(m, init, k);
      assert KeyOf(ds[|ds| - 1]) != Some(k);
    }
  }

  /**
   * Registering keeps the iteration order a duplicate-free listing of the keys,
   * and keys already present keep their places.
   */
  lemma {:induction false} InsertionOrderLists(order: seq<string>, m: map<string, Asset>, ds: seq<Descriptor>)
    requires OrderOf(order, m)
    ensures OrderOf(InsertionOrder(order, ds), RegisterAll(m, ds))
    ensures order <= InsertionOrder(order, ds)
    decreases |ds|
  {
    if ds != [] {
      InsertionOrderLists(order, m, ds[..|ds| - 1]);
    }
  }

  /** Every entry that registering makes is classified by its own name. */
  lemma {:induction false} RegisterAllClassified(m: map<string, Asset>, ds: seq<Descriptor>)
    requires forall n | n in m :: Classified(n, m[n])
    ensures forall n | n in RegisterAll(m, ds) :: Classified(n, RegisterAll(m, ds)[n])
    decreases |ds|
  {
    if ds != [] {
      var prev := RegisterAll(m, ds[..|ds| - 1]);
      RegisterAllClassified(m, ds[..|ds| - 1]);
      var r := Register(prev, ds[|ds| - 1]);
      forall n | n in r
        ensures Classified(n, r[n])
      {
        if KeyOf(ds[|ds| - 1]) == Some(n) {
          assert r[n] == Classify(n, ContentOf(ds[|ds| - 1]));
        } else {
          assert n in prev && r[n] == prev[n];
        }
      }
    }
  }
}
