/**
 * The getters of `src/config.ts`, as functions of the laravel-mix state they
 * read (`Mix.primary`).
 */
module Config {
  import opened Wrappers
  import opened Paths

  datatype HmrOptions = HmrOptions(host: string, port: string, https: bool)

  /**
   * The fields of laravel-mix's configuration that the getters read.
   * `manifest` is None when the configured value is not a string (laravel-mix
   * uses `false` when no manifest is generated); `publicPath` is None when it
   * is null or undefined.
   */
  datatype MixConfig = MixConfig(
    publicPath: Option<string>,
    manifest: Option<string>,
    hmrOptions: Option<HmrOptions>)

  /** `Mix.primary`: its configuration, registered components and mode flags. */
  datatype MixState = MixState(
    config: MixConfig,
    components: set<string>,
    isHot: bool,
    isWatching: bool,
    isPolling: bool)

  const ManifestMissing := "[manifest-paths]: expected a manifest file to be generated."

  /** `public_dir`: the resolved public path, the current directory when it is unset. */
  function PublicDir(st: MixState, ps: PathOps): (r: string)
    ensures st.config.publicPath.None? ==> r == ps.resolve(".")
    ensures st.config.publicPath.Some? ==> r == ps.resolve(st.config.publicPath.value)
  {
    ps.resolve(st.config.publicPath.GetOr("."))
  }

  /**
   * `manifest_path`: the manifest name joined to `public_dir`; a configuration
   * whose manifest is not a string is an error.
   */
  function ManifestPath(st: MixState, ps: PathOps): (r: Result<string, string>)
    ensures r.Err? <==> st.config.manifest.None?
    ensures r.Err? ==> r.error == ManifestMissing
    ensures r.Ok? ==> r.value == ps.join(PublicDir(st, ps), st.config.manifest.value)
  {
    match st.config.manifest
    case None => Err(ManifestMissing)
    case Some(name) => Ok(ps.join(PublicDir(st, ps), name))
  }

  /** `useVersioning`: the `version` component is registered and hot mode is off. */
  function UseVersioning(st: MixState): (r: bool)
    ensures r <==> "version" in st.components && !st.isHot
  {
    "version" in st.components && !st.isHot
  }

  function Protocol(https: bool): string {
    if https then "https" else "http"
  }

  /**
   * `hot_url`: null unless hot mode is on and hot-reload options exist;
   * otherwise `protocol://host:port`, with `https` exactly when
   * `hmrOptions.https` is set.
   */
  function HotUrl(st: MixState): (r: Option<string>)
    ensures r.Some? <==> st.isHot && st.config.hmrOptions.Some?
    ensures r.Some? ==> var h := st.config.hmrOptions.value;
      r.value == Protocol(h.https) + "://" + h.host + ":" + h.port
  {
    if !st.isHot || st.config.hmrOptions.None? then None
    else
      var h := st.config.hmrOptions.value;
      Some(Protocol(h.https) + "://" + h.host + ":" + h.port)
  }

  /** Versioning and a hot-reload URL never occur together. */
  lemma VersioningExcludesHotUrl(st: MixState)
    ensures UseVersioning(st) ==> HotUrl(st).None?
  {
  }
}
