/**
 * The preview entry point `GET /api/preview`: it checks the shared secret,
 * refuses to run on the default secret in production, picks the path to
 * open and then enables draft mode and redirects. The framework calls
 * (`draftMode().enable()`, `redirect`) are modelled by the returned outcome.
 */
module PreviewRoute {
  import opened Wrappers
  import opened JsText
  import PreviewUrl

  const DefaultSecret := "preview-secret-change-in-production"

  /** The environment variables the route reads. */
  datatype Env = Env(sanityPreviewSecret: Option<string>, publicPreviewSecret: Option<string>, nodeEnv: Option<string>)

  /** The query parameters; `None` is a parameter that is absent (`searchParams.get` gives `null`). */
  datatype Query = Query(secret: Option<string>, slug: Option<string>, docType: Option<string>, id: Option<string>)

  /** 401 "Invalid token", 403 "Preview not configured", or a redirect with draft mode on. */
  datatype Response = Unauthorized | Forbidden | Redirect(path: string)

  /** A string parameter or variable that JavaScript treats as true: present and not empty. */
  predicate Truthy(v: Option<string>) {
    v.Some? && v.value != ""
  }

  /** `PREVIEW_SECRET`: the first non-empty of the two variables, else the built-in default. */
  function ConfiguredSecret(env: Env): (r: string)
    ensures r != ""
    ensures Truthy(env.sanityPreviewSecret) ==> r == env.sanityPreviewSecret.value
    ensures !Truthy(env.sanityPreviewSecret) && Truthy(env.publicPreviewSecret) ==> r == env.publicPreviewSecret.value
    ensures !Truthy(env.sanityPreviewSecret) && !Truthy(env.publicPreviewSecret) ==> r == DefaultSecret
  {
    if Truthy(env.sanityPreviewSecret) then env.sanityPreviewSecret.value
    else if Truthy(env.publicPreviewSecret) then env.publicPreviewSecret.value
    else DefaultSecret
  }

  /** The secret check passes: a non-empty secret equal to the configured one. */
  predicate Authorized(env: Env, q: Query) {
    Truthy(q.secret) && q.secret.value == ConfiguredSecret(env)
  }

  /** The production guard: the default secret is refused in production. */
  predicate Misconfigured(env: Env) {
    env.nodeEnv == Some("production") && ConfiguredSecret(env) == DefaultSecret
  }

  /** `searchParams.get('slug') || '/'`. */
  function SlugParam(q: Query): (r: string)
    ensures r != ""
    ensures r == "/" || (q.slug.Some? && r == q.slug.value)
    ensures Truthy(q.slug) ==> r == q.slug.value
    ensures !Truthy(q.slug) ==> r == "/"
  {
    if Truthy(q.slug) then q.slug.value else "/"
  }

  /**
   * The path a slug leads to as the route computes it: trimmed, with a `/`
   * added when it has none. A slug that already starts with `//` is kept.
   */
  function SlugPathAsWritten(slug: string): (r: string)
    ensures StartsWith(r, "/")
    ensures r == Trim(slug) || r == "/" + Trim(slug)
  {
    var t := Trim(slug);
    if StartsWith(t, "/") then t else "/" + t
  }

  /** `s` without the slashes it starts with. */
  function DropLeadingSlashes(s: string): (r: string)
    ensures |r| <= |s| && r == s[|s| - |r|..]
    ensures r == [] || r[0] != '/'
    ensures forall i :: 0 <= i < |s| - |r| ==> s[i] == '/'
  {
    if s != [] && s[0] == '/' then DropLeadingSlashes(s[1..]) else s
  }

  /**
   * The path a slug leads to, as the comment of the route intends it: the
   * trimmed slug with exactly one leading `/`, so that the redirect never
   * reads as a protocol-relative URL that leaves the site.
   */
  function SlugPath(slug: string): (r: string)
    ensures |r| > 0 && r[0] == '/' && (|r| == 1 || r[1] != '/')
    ensures var t := Trim(slug);
      |r| - 1 <= |t| && r[1..] == t[|t| - (|r| - 1)..] &&
      forall i :: 0 <= i < |t| - (|r| - 1) ==> t[i] == '/'
  {
    var t := Trim(slug);
    var d := DropLeadingSlashes(t);
    assert ("/" + d)[1..] == d;
    "/" + d
  }

  /** `GET(request)`. */
  method Get(env: Env, q: Query) returns (resp: Response, draftEnabled: bool)
    ensures resp == Unauthorized <==> !Authorized(env, q)
    ensures resp == Forbidden <==> Authorized(env, q) && Misconfigured(env)
    ensures draftEnabled <==> resp.Redirect?
    ensures resp.Redirect? ==> StartsWith(resp.path, "/") && (|resp.path| == 1 || resp.path[1] != '/')
    ensures resp.Redirect? && Truthy(q.docType) && Truthy(q.id) ==>
      resp.path == PreviewUrl.ResolvePreviewUrl(PreviewUrl.PreviewDoc(q.docType, q.id, None))
    ensures resp.Redirect? && !(Truthy(q.docType) && Truthy(q.id)) ==> resp.path == SlugPath(SlugParam(q))
  {
    var secret := q.secret;
    var slug := SlugParam(q);
    var secretValue := ConfiguredSecret(env);
    draftEnabled := false;

    if !Truthy(secret) || secret.value != secretValue {
      return Unauthorized, draftEnabled;
    }

    if env.nodeEnv == Some("production") && secretValue == DefaultSecret {
      return Forbidden, draftEnabled;
    }

    if Truthy(q.docType) && Truthy(q.id) {
      var previewUrl := PreviewUrl.ResolvePreviewUrl(PreviewUrl.PreviewDoc(q.docType, q.id, None));
      slug := previewUrl;
    } else if slug != "" {
      slug := Trim(slug);
      // The route keeps a slug that already starts with `/`; this keeps one `/` only.
      slug := "/" + DropLeadingSlashes(slug);
    }

    draftEnabled := true;
    resp := Redirect(slug);
  }

  // ---------------------------------------------------------------------------
  // Lemmas

  /** A string that starts with `/` and has no whitespace at its end is left as it is by `trim`. */
  lemma TrimKeepsPath(p: string)
    requires StartsWith(p, "/") && !IsWhitespace(p[|p| - 1])
    ensures Trim(p) == p
  {
    assert !IsWhitespace(p[0]) by {
      assert p[0] == p[..1][0];
    }
  }

  /** A path with one leading `/` and no whitespace at its end is its own path. */
  lemma SlugPathFixed(p: string)
    requires StartsWith(p, "/") && (|p| == 1 || p[1] != '/') && !IsWhitespace(p[|p| - 1])
    ensures SlugPath(p) == p
  {
    TrimKeepsPath(p);
    SlashPrefixes(p);
    DropOneSlash(p);
  }

  /** A path never ends in whitespace. */
  lemma SlugPathEnd(slug: string)
    ensures var p := SlugPath(slug); !IsWhitespace(p[|p| - 1])
  {
    var t := Trim(slug);
    var p := SlugPath(slug);
    if |p| > 1 {
      assert p[|p| - 1] == p[1..][|p| - 2] == t[|t| - 1];
    }
  }

  /** A path produced from a slug is produced again from itself: the normalisation is idempotent. */
  lemma SlugPathIdempotent(slug: string)
    ensures SlugPath(SlugPath(slug)) == SlugPath(slug)
  {
    var p := SlugPath(slug);
    SlugPathEnd(slug);
    assert StartsWith(p, "/") by {
      assert p[..1] == [p[0]];
    }
    SlugPathFixed(p);
  }

  /** `startsWith("/")` and `startsWith("//")` in terms of characters. */
  lemma SlashPrefixes(t: string)
    ensures StartsWith(t, "/") <==> |t| > 0 && t[0] == '/'
    ensures StartsWith(t, "//") <==> |t| > 1 && t[0] == '/' && t[1] == '/'
  {
    if |t| > 0 {
      assert t[..1] == [t[0]];
    }
    if |t| > 1 {
      assert t[..2] == [t[0], t[1]];
    }
  }

  /** A string with exactly one leading `/` loses just that one. */
  lemma DropOneSlash(t: string)
    requires |t| > 0 && t[0] == '/' && (|t| == 1 || t[1] != '/')
    ensures DropLeadingSlashes(t) == t[1..]
    ensures "/" + t[1..] == t
  {
  }

  /** The correction changes only slugs that start with `//` once trimmed. */
  lemma SlugPathAgrees(slug: string)
    requires !StartsWith(Trim(slug), "//")
    ensures SlugPath(slug) == SlugPathAsWritten(slug)
  {
    var t := Trim(slug);
    SlashPrefixes(t);
    if |t| > 0 && t[0] == '/' {
      DropOneSlash(t);
    }
  }

  /**
   * As written, a slug that starts with `//` is redirected to as it is, so
   * `//evil.example` is a protocol-relative URL for another host.
   */
  lemma DoubleSlashKeptAsWritten(rest: string)
    requires rest == [] || !IsWhitespace(rest[|rest| - 1])
    ensures SlugPathAsWritten("//" + rest) == "//" + rest
  {
    TrimKeepsPath("//" + rest);
  }

  /** Corrected, the same slug keeps a single `/`. */
  lemma DoubleSlashCorrected(rest: string)
    requires rest == [] || (rest[0] != '/' && !IsWhitespace(rest[|rest| - 1]))
    ensures SlugPath("//" + rest) == "/" + rest
  {
    var t := "//" + rest;
    DoubleSlashShape(rest, t);
    TrimKeepsPath(t);
    DropTwoSlashes(t, rest);
  }

  lemma DoubleSlashShape(rest: string, t: string)
    requires t == "//" + rest
    ensures |t| == |rest| + 2 && t[0] == '/' && t[1] == '/' && t[2..] == rest
    ensures StartsWith(t, "/") && t[|t| - 1] == (if rest == [] then '/' else rest[|rest| - 1])
  {
    SlashPrefixes(t);
  }

  /** A string that starts with exactly two slashes loses both. */
  lemma DropTwoSlashes(t: string, rest: string)
    requires |t| > 1 && t[0] == '/' && t[1] == '/' && t[2..] == rest && (rest == [] || rest[0] != '/')
    ensures DropLeadingSlashes(t) == rest
  {
    assert DropLeadingSlashes(t) == DropLeadingSlashes(t[1..]);
    assert t[1..][1..] == rest;
  }

  /** A slug that is already a path, with one leading `/` and no trailing whitespace, is redirected to as given. */
  lemma PathSlugKept(q: Query)
    requires Truthy(q.slug)
    requires var v := q.slug.value;
      v[0] == '/' && (|v| == 1 || v[1] != '/') && !IsWhitespace(v[|v| - 1])
    ensures SlugPath(SlugParam(q)) == q.slug.value
  {
    var v := q.slug.value;
    SlashPrefixes(v);
    SlugPathFixed(v);
  }

  /** A missing, empty or blank slug opens the home page. */
  lemma BlankSlugIsHome(q: Query)
    requires !Truthy(q.slug) || forall i :: 0 <= i < |q.slug.value| ==> IsWhitespace(q.slug.value[i])
    ensures SlugPath(SlugParam(q)) == "/"
  {
    var s := SlugParam(q);
    if Truthy(q.slug) {
      assert TrimStart(s) == [];
    } else {
      SlashIsHome(s);
    }
  }

  lemma SlashIsHome(s: string)
    requires s == "/"
    ensures SlugPath(s) == "/"
  {
    TrimKeepsPath(s);
    DropOneSlash(s);
  }

  /** With neither secret variable set, a production deployment refuses every preview. */
  lemma UnconfiguredProductionRefuses(env: Env)
    requires env.nodeEnv == Some("production")
    requires !Truthy(env.sanityPreviewSecret) && !Truthy(env.publicPreviewSecret)
    ensures Misconfigured(env)
  {
  }
}
