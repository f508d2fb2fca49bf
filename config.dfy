/**
 * The locale configuration: `createLocaleConfig` (source/internal/controller.ts) regroups its
 * flat arguments into the nested object every other part of the library reads, and its type
 * parameters state the configuration's invariants, written here as `ValidArgs` (and `Valid`, the same on the regrouped object).
 */
module Config {
  import opened Wrappers

  datatype Supported = Supported(locales: seq<string>, namespaces: seq<string>, globalNamespaces: seq<string>)
  datatype Defaults = Defaults(locale: string, namespace: string)
  /** A key may be present with an `undefined` value (the type is `Partial`): `None`. */
  datatype Meta = Meta(inherits: map<string, Option<seq<string>>>)
  datatype Server = Server(cookieName: string, ignoreMiddleware: seq<string>)
  /** `localePattern` is kept as the regular expression's source text; its `test` is abstract. */
  datatype Other = Other(localePattern: string, dictionaryPath: string)

  /** The value `createLocaleConfig` returns. */
  datatype LocaleConfig = LocaleConfig(supported: Supported, defaults: Defaults, meta: Meta, server: Server, other: Other)

  /** The flat argument object of `createLocaleConfig`. */
  datatype ConfigArgs = ConfigArgs(
    supportedLocales: seq<string>,
    supportedNamespaces: seq<string>,
    globalNamespaces: seq<string>,
    defaultLocale: string,
    defaultNamespace: string,
    cookieName: string,
    localePattern: string,
    dictionaryPath: string,
    inherits: map<string, Option<seq<string>>>,
    ignoreMiddleware: seq<string>)

  /**
   * What the type parameters of `createLocaleConfig` demand: the default locale and namespace
   * are supported, `inherits` is keyed by supported locales, and each chain lists supported
   * locales other than its own key.
   */
  predicate ValidArgs(a: ConfigArgs)
  {
    && a.defaultLocale in a.supportedLocales
    && a.defaultNamespace in a.supportedNamespaces
    && (forall l :: l in a.inherits ==> l in a.supportedLocales)
    && (forall l :: l in a.inherits && a.inherits[l].Some? ==>
          forall x :: x in a.inherits[l].value ==> x in a.supportedLocales && x != l)
  }

  /** The same invariants, read off the regrouped configuration. */
  predicate Valid(c: LocaleConfig)
  {
    ValidArgs(Flatten(c))
  }

  /** Every locale named in an inheritance chain is a supported locale. */
  predicate InheritsSupported(c: LocaleConfig)
  {
    forall l :: l in c.meta.inherits && c.meta.inherits[l].Some? ==>
      forall x :: x in c.meta.inherits[l].value ==> x in c.supported.locales
  }

  lemma ValidInheritsSupported(c: LocaleConfig)
    requires Valid(c)
    ensures InheritsSupported(c)
  {
  }

  /** The inverse of the regrouping: the flat arguments a configuration was built from. */
  function Flatten(c: LocaleConfig): ConfigArgs
  {
    ConfigArgs(c.supported.locales, c.supported.namespaces, c.supported.globalNamespaces,
               c.defaults.locale, c.defaults.namespace, c.server.cookieName,
               c.other.localePattern, c.other.dictionaryPath, c.meta.inherits, c.server.ignoreMiddleware)
  }

  /**
   * `createLocaleConfig`: every argument lands, unchanged, in its group; nothing is checked
   * or altered, so the arguments can be read back and the invariants carry over both ways.
   */
  function CreateLocaleConfig(a: ConfigArgs): (c: LocaleConfig)
    ensures Flatten(c) == a
    ensures Valid(c) <==> ValidArgs(a)
  {
    LocaleConfig(
      Supported(a.supportedLocales, a.supportedNamespaces, a.globalNamespaces),
      Defaults(a.defaultLocale, a.defaultNamespace),
      Meta(a.inherits),
      Server(a.cookieName, a.ignoreMiddleware),
      Other(a.localePattern, a.dictionaryPath))
  }

  /** Regrouping the flattened arguments gives back the configuration. */
  lemma RegroupRoundTrip(c: LocaleConfig)
    ensures CreateLocaleConfig(Flatten(c)) == c
  {
  }

  /** The configuration of source/config.ts. */
  const SampleArgs := ConfigArgs(
    ["en-GB"], ["common"], [], "en-GB", "common", "hl", "[a-z]{2}-[A-Z]{2}",
    "src/locale/dictionary/{locale}/{namespace}.json", map[],
    ["/static", "/api", "/_next", "favicon.ico", "robots.txt", "sitemap.xml"])

  const SampleConfig := CreateLocaleConfig(SampleArgs)

  lemma SampleConfigValid()
    ensures Valid(SampleConfig)
    ensures SampleConfig.defaults == Defaults("en-GB", "common")
  {
  }
}
