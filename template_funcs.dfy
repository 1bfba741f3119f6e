/** The real reference resolver `mix` of `src/template_funcs.ts`. */
module TemplateFuncs {
  import opened Wrappers
  import Config

  /** What `mix` consults besides its argument: the manifest, `config.hot_url` and `process.env`. */
  datatype MixContext = MixContext(
    manifest: map<string, string>,
    hotUrl: Option<string>,
    env: map<string, string>)

  const HotProxyVar := "MIX_HOT_PROXY_URL"
  const AssetUrlVar := "MIX_ASSET_URL"

  /** `process.env[name] ?? ""`: an unset variable reads as the empty string. */
  function EnvValue(env: map<string, string>, name: string): (r: string)
    ensures name !in env ==> r == ""
    ensures name in env ==> r == env[name]
  {
    if name in env then env[name] else ""
  }

  const MissingFilePrefix := "Unable to locate Mix file: '"

  function MissingFileMessage(id: string): string {
    MissingFilePrefix + id + "'."
  }

  /** The characters that JavaScript's `.` does not match. */
  predicate IsLineTerminator(c: char) {
    c == '\n' || c == '\r' || c == '\U{2028}' || c == '\U{2029}'
  }

  /**
   * Where the pattern `^.*?:` ends: the index of the first `:` when no line
   * terminator comes before it, and None when the pattern does not match.
   */
  function FirstColon(u: string, from: nat := 0): (r: Option<nat>)
    requires from <= |u|
    requires forall j :: 0 <= j < from ==> u[j] != ':' && !IsLineTerminator(u[j])
    ensures r.Some? ==> from <= r.value < |u| && u[r.value] == ':'
    ensures r.Some? ==> forall j :: 0 <= j < r.value ==> u[j] != ':' && !IsLineTerminator(u[j])
    ensures r.None? ==> forall i :: 0 <= i < |u| && u[i] == ':' ==>
      exists j :: 0 <= j < i && IsLineTerminator(u[j])
    decreases |u| - from
  {
    if from == |u| then None
    else if u[from] == ':' then Some(from)
    else if IsLineTerminator(u[from]) then None
    else FirstColon(u, from + 1)
  }

  /** `hot_url.replace(/^.*?:/, "")`: drop everything up to and including the first `:`. */
  function StripProtocol(u: string): (r: string)
    ensures FirstColon(u).None? ==> r == u
    ensures FirstColon(u).Some? ==> r == u[FirstColon(u).value + 1..]
  {
    match FirstColon(u)
    case None => u
    case Some(i) => u[i + 1..]
  }

  /** A `:` that follows a colon-free, single-line prefix is the first match. */
  lemma {:induction false} FirstColonAfter(p: string, s: string, from: nat)
    requires from <= |p|
    requires forall j :: 0 <= j < |p| ==> p[j] != ':' && !IsLineTerminator(p[j])
    ensures FirstColon(p + ":" + s, from) == Some(|p|)
    decreases |p| - from
  {
    var u := p + ":" + s;
    assert u[|p|] == ':';
    if from < |p| {
      assert u[from] == p[from];
      FirstColonAfter(p, s, from + 1);
    }
  }

  /** The hot-reload URL built by the configuration loses exactly its protocol. */
  lemma HotUrlWithoutProtocol(st: Config.MixState)
    requires Config.HotUrl(st).Some?
    ensures var h := st.config.hmrOptions.value;
      StripProtocol(Config.HotUrl(st).value) == "//" + h.host + ":" + h.port
  {
    var h := st.config.hmrOptions.value;
    var p := Config.Protocol(h.https);
    var s := "//" + h.host + ":" + h.port;
    assert Config.HotUrl(st).value == p + ":" + s;
    FirstColonAfter(p, s, 0);
    assert (p + ":" + s)[|p| + 1..] == s;
  }

  function TrimTrailingSlashes(a: string): (r: string)
    ensures |r| <= |a| && r == a[..|r|]
    ensures forall i :: |r| <= i < |a| ==> a[i] == '/'
    ensures r == [] || r[|r| - 1] != '/'
  {
    if a == [] || a[|a| - 1] != '/' then a else TrimTrailingSlashes(a[..|a| - 1])
  }

  function TrimLeadingSlashes(b: string): (r: string)
    ensures |r| <= |b| && r == b[|b| - |r|..]
    ensures forall i :: 0 <= i < |b| - |r| ==> b[i] == '/'
    ensures r == [] || r[0] != '/'
  {
    if b == [] || b[0] != '/' then b else TrimLeadingSlashes(b[1..])
  }

  /**
   * `urljoin(a, b)` reduced to what the resolver relies on: the slashes at the
   * boundary collapse to exactly one.
   */
  function UrlJoin(a: string, b: string): (r: string)
    ensures r == TrimTrailingSlashes(a) + "/" + TrimLeadingSlashes(b)
  {
    TrimTrailingSlashes(a) + "/" + TrimLeadingSlashes(b)
  }

  /** Joining a slash-free base and a slash-led id just concatenates them. */
  lemma UrlJoinBoundary(a: string, b: string)
    requires a != [] && a[|a| - 1] != '/'
    requires |b| >= 1 && b[0] == '/' && (|b| == 1 || b[1] != '/')
    ensures UrlJoin(a, b) == a + b
  {
    assert TrimLeadingSlashes(b[1..]) == b[1..];
    assert b == "/" + b[1..];
  }

  /**
   * `mix(public_url)`: look the id up in the manifest (a missing id is an
   * error, whatever the mode), then choose, in this order, the hot proxy URL,
   * the hot-reload URL without its protocol, the asset URL, or the manifest
   * value itself. The hot forms join the unversioned id, the others the
   * versioned one.
   */
  function Mix(id: string, ctx: MixContext): (r: Result<string, string>)
    ensures r.Err? <==> id !in ctx.manifest
    ensures r.Err? ==> r.error == MissingFileMessage(id)
    ensures id in ctx.manifest && ctx.hotUrl.Some? && EnvValue(ctx.env, HotProxyVar) != "" ==>
      r == Ok(UrlJoin(EnvValue(ctx.env, HotProxyVar), id))
    ensures id in ctx.manifest && ctx.hotUrl.Some? && EnvValue(ctx.env, HotProxyVar) == "" ==>
      r == Ok(UrlJoin(StripProtocol(ctx.hotUrl.value), id))
    ensures id in ctx.manifest && ctx.hotUrl.None? && EnvValue(ctx.env, AssetUrlVar) != "" ==>
      r == Ok(UrlJoin(EnvValue(ctx.env, AssetUrlVar), ctx.manifest[id]))
    ensures id in ctx.manifest && ctx.hotUrl.None? && EnvValue(ctx.env, AssetUrlVar) == "" ==>
      r == Ok(ctx.manifest[id])
  {
    if id !in ctx.manifest then Err(MissingFileMessage(id))
    else if ctx.hotUrl.Some? then
      var proxy := EnvValue(ctx.env, HotProxyVar);
      if |proxy| > 0 then Ok(UrlJoin(proxy, id))
      else Ok(UrlJoin(StripProtocol(ctx.hotUrl.value), id))
    else
      var asset := EnvValue(ctx.env, AssetUrlVar);
      if |asset| > 0 then Ok(UrlJoin(asset, ctx.manifest[id]))
      else Ok(ctx.manifest[id])
  }

  /**
   * In hot mode the result does not depend on the versioned value: two
   * manifests that both hold the id resolve it alike.
   */
  lemma HotModeIgnoresVersion(id: string, ctx: MixContext, other: map<string, string>)
    requires ctx.hotUrl.Some? && id in ctx.manifest && id in other
    ensures Mix(id, ctx) == Mix(id, ctx.(manifest := other))
  {
  }

  /** The error message names the id literally, whatever it is. */
  lemma MissingIdNamed(id: string, ctx: MixContext)
    requires id !in ctx.manifest
    ensures var n := |MissingFilePrefix|;
      Mix(id, ctx).Err? && Mix(id, ctx).error[n..n + |id|] == id
  {
    var n := |MissingFilePrefix|;
    assert MissingFileMessage(id)[n..n + |id|] == id;
  }

  const TestManifest := map["/unversioned.css" := "/versioned.css"]

  /** Not hot and no usable asset URL: the versioned value, unchanged. */
  lemma PlainExamples()
    ensures Mix("/unversioned.css", MixContext(TestManifest, None, map[])) == Ok("/versioned.css")
    ensures Mix("/unversioned.css", MixContext(TestManifest, None, map[AssetUrlVar := ""])) == Ok("/versioned.css")
  {
  }

  /**
   * Outside hot mode an asset URL without a trailing slash is simply put in
   * front of a versioned value that starts with a single slash.
   */
  lemma AssetUrlPrefixes(id: string, ctx: MixContext)
    requires id in ctx.manifest && ctx.hotUrl.None?
    requires var asset := EnvValue(ctx.env, AssetUrlVar); asset != [] && asset[|asset| - 1] != '/'
    requires var v := ctx.manifest[id]; |v| >= 1 && v[0] == '/' && (|v| == 1 || v[1] != '/')
    ensures Mix(id, ctx) == Ok(EnvValue(ctx.env, AssetUrlVar) + ctx.manifest[id])
  {
    UrlJoinBoundary(EnvValue(ctx.env, AssetUrlVar), ctx.manifest[id]);
  }

  /**
   * With the hot URL built from the configuration and no proxy, a slash-led id
   * resolves to the protocol-relative dev-server address followed by the id.
   */
  lemma HotUrlPrefixes(st: Config.MixState, id: string, ctx: MixContext)
    requires Config.HotUrl(st).Some? && ctx.hotUrl == Config.HotUrl(st)
    requires id in ctx.manifest && EnvValue(ctx.env, HotProxyVar) == ""
    requires var port := st.config.hmrOptions.value.port; port != [] && port[|port| - 1] != '/'
    requires |id| >= 1 && id[0] == '/' && (|id| == 1 || id[1] != '/')
    ensures var h := st.config.hmrOptions.value;
      Mix(id, ctx) == Ok("//" + h.host + ":" + h.port + id)
  {
    var h := st.config.hmrOptions.value;
    var s := "//" + h.host + ":" + h.port;
    HotUrlWithoutProtocol(st);
    assert s[|s| - 1] == h.port[|h.port| - 1];
    UrlJoinBoundary(s, id);
  }

  /** In hot mode a non-empty proxy URL takes precedence over any hot URL. */
  lemma HotProxyPrefixes(id: string, ctx: MixContext)
    requires id in ctx.manifest && ctx.hotUrl.Some?
    requires var proxy := EnvValue(ctx.env, HotProxyVar); proxy != [] && proxy[|proxy| - 1] != '/'
    requires |id| >= 1 && id[0] == '/' && (|id| == 1 || id[1] != '/')
    ensures Mix(id, ctx) == Ok(EnvValue(ctx.env, HotProxyVar) + id)
  {
    UrlJoinBoundary(EnvValue(ctx.env, HotProxyVar), id);
  }

  /** Missing ids fail, the empty id and an id without a leading slash included. */
  lemma MissingExamples()
    ensures Mix("", MixContext(map[], None, map[])) == Err("Unable to locate Mix file: ''.")
    ensures Mix("unversioned.css", MixContext(map[], Some("http://h:1"), map[]))
      == Err("Unable to locate Mix file: 'unversioned.css'.")
  {
    assert MissingFileMessage("") == "Unable to locate Mix file: ''.";
    assert MissingFileMessage("unversioned.css") == "Unable to locate Mix file: 'unversioned.css'.";
  }
}
