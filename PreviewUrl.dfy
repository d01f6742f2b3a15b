/**
 * The map from a CMS document to the site path its preview opens. Every
 * document type currently maps to the home page.
 */
module PreviewUrl {
  import opened Wrappers

  datatype SlugField = SlugField(current: Option<string>)

  /** The document passed in: its `_type`, `_id` and `slug`, each of which may be missing. */
  datatype PreviewDoc = PreviewDoc(docType: Option<string>, id: Option<string>, slug: Option<SlugField>)

  /** The own entries of the route map. */
  const RouteMap: map<string, string> := map["homepage" := "/", "header" := "/", "footer" := "/"]

  /** The fallback path. */
  const Fallback := "/"

  /** The properties every object literal inherits from `Object.prototype`. */
  const InheritedKeys: set<string> := {
    "constructor", "hasOwnProperty", "isPrototypeOf", "propertyIsEnumerable",
    "toLocaleString", "toString", "valueOf", "__proto__",
    "__defineGetter__", "__defineSetter__", "__lookupGetter__", "__lookupSetter__"
  }

  /** A JavaScript value read from the route map: a string, an inherited property (a function or object), or `undefined`. */
  datatype JsValue = Str(s: string) | Inherited(name: string) | Undefined

  predicate Truthy(v: JsValue) {
    match v
    case Str(s) => s != ""
    case Inherited(_) => true
    case Undefined => false
  }

  /** `doc._type || ''`. */
  function TypeKey(doc: PreviewDoc): string {
    doc.docType.GetOr("")
  }

  /** `routeMap[key]` on the object literal: its own entries first, then the prototype's properties. */
  function LookupAsWritten(key: string): (v: JsValue)
    ensures key in RouteMap ==> v == Str(RouteMap[key])
    ensures key !in RouteMap && key in InheritedKeys ==> v == Inherited(key)
    ensures key !in RouteMap && key !in InheritedKeys ==> v == Undefined
  {
    if key in RouteMap then Str(RouteMap[key])
    else if key in InheritedKeys then Inherited(key)
    else Undefined
  }

  /** `resolvePreviewUrl` as written: a truthy lookup result is returned, whatever it is. */
  function ResolveAsWritten(doc: PreviewDoc): JsValue {
    var route := LookupAsWritten(TypeKey(doc));
    if Truthy(route) then route else Str(Fallback)
  }

  /** `resolvePreviewUrl` with the lookup restricted to the map's own entries. */
  function ResolvePreviewUrl(doc: PreviewDoc): (r: string)
    ensures r == "/"
  {
    var key := TypeKey(doc);
    if key in RouteMap && RouteMap[key] != "" then RouteMap[key] else Fallback
  }

  // ---------------------------------------------------------------------------
  // Lemmas

  /** The three page types map to the home page, a missing type is looked up as "" and falls back to it too. */
  lemma KnownTypes(id: Option<string>, slug: Option<SlugField>)
    ensures ResolveAsWritten(PreviewDoc(Some("homepage"), id, slug)) == Str("/")
    ensures ResolveAsWritten(PreviewDoc(Some("header"), id, slug)) == Str("/")
    ensures ResolveAsWritten(PreviewDoc(Some("footer"), id, slug)) == Str("/")
    ensures ResolveAsWritten(PreviewDoc(None, id, slug)) == Str("/")
  {
    assert "" !in InheritedKeys;
  }

  /** Away from the inherited property names the code as written returns the home page, like the corrected lookup. */
  lemma AsWrittenOffPrototype(doc: PreviewDoc)
    requires TypeKey(doc) !in InheritedKeys
    ensures ResolveAsWritten(doc) == Str(ResolvePreviewUrl(doc))
  {
  }

  /** A document type named after an inherited property escapes the fallback: the lookup returns that property. */
  lemma InheritedTypeEscapes(id: Option<string>)
    ensures ResolveAsWritten(PreviewDoc(Some("toString"), id, None)) == Inherited("toString")
    ensures ResolveAsWritten(PreviewDoc(Some("toString"), id, None)) != Str(ResolvePreviewUrl(PreviewDoc(Some("toString"), id, None)))
  {
    assert "toString" !in RouteMap;
  }

  /** Neither the id nor the slug ever affects the path. */
  lemma OnlyTypeMatters(a: PreviewDoc, b: PreviewDoc)
    requires a.docType == b.docType
    ensures ResolveAsWritten(a) == ResolveAsWritten(b)
    ensures ResolvePreviewUrl(a) == ResolvePreviewUrl(b)
  {
  }
}
