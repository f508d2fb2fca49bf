/**
 * The older resolver of source/locale/internal/translate.ts. It works on compiled
 * dictionaries only (no compressed form) and, when no dictionary is passed, falls back to the
 * module-level dictionary of its sibling `./compileDictionary`. That dictionary is the
 * parameter `compiled`; the sibling file is not part of this model, and the lemmas that
 * pass `Compiler.Compiled` for it take it to compile as source/internal/compileDictionary.ts does.
 */
module LegacyResolver {
  import opened Wrappers
  import opened Trees
  import opened Paths
  import opened Config
  import opened Compiler
  import opened Resolver

  /** `overrideDictionary?: NextLocTypes.Dictionary` in this version's signature. */
  type OldTFunction = (string, Option<Dictionary>, Option<string>) -> Translated

  /** A compiled dictionary read as one tree: locale, then namespace, then the fragment. */
  function AsReference(d: Dictionary): Reference
  {
    Node(AsTree(d))
  }

  /** The same tree's top level: one entry per locale. */
  function AsTree(d: Dictionary): Tree
  {
    map l | l in d :: Node(d[l])
  }

  /** The same dictionary, as the current resolver's argument. */
  function AsThisDictionary(d: Option<Dictionary>): Option<ThisDictionary>
  {
    if d.None? then None else Some(Raw(AsTree(d.value)))
  }

  /** What the older `getTranslation(key, overrideDictionary)` does. */
  function OldResolve(compiled: Option<Dictionary>, key: string, overrideDictionary: Option<Dictionary>): (r: Lookup)
    ensures r == NoDictionary <==> overrideDictionary.None? && compiled.None?
    ensures r != Undecodable
    ensures r.Found? <==> (overrideDictionary.OrElse(compiled).Some?
      && Walk(AsReference(overrideDictionary.OrElse(compiled).value), Split(key)).Reached?
      && Walk(AsReference(overrideDictionary.OrElse(compiled).value), Split(key)).node.Leaf?)
  {
    var dictionary := overrideDictionary.OrElse(compiled);
    if dictionary.None? then NoDictionary else Outcome(Walk(AsReference(dictionary.value), Split(key)))
  }

  /** The older `getTranslation`, with the same segment loop. */
  method OldGetTranslation(compiled: Option<Dictionary>, key: string, overrideDictionary: Option<Dictionary>)
    returns (r: Lookup)
    ensures r == OldResolve(compiled, key, overrideDictionary)
  {
    var segments := Split(key);
    var dictionary := overrideDictionary.OrElse(compiled);
    if dictionary.None? {
      return NoDictionary;
    }
    var s := WalkSegments(AsReference(dictionary.value), segments);
    r := Outcome(s);
  }

  /**
   * The older `translate`: the string found, or the path `{locale}.{key}` with a warning when
   * the walk fails, and with an error when neither an override nor a compiled dictionary exists.
   */
  function OldTranslate(defaults: Defaults, compiled: Option<Dictionary>, key: string,
                        overrideDictionary: Option<Dictionary>, overrideLocale: Option<string>): (r: Translated)
    ensures var found := OldResolve(compiled, LookupPath(defaults, key, overrideLocale), overrideDictionary);
      && (r.log.None? <==> found.Found?)
      && (r.log.None? ==> r.text == found.text)
      && (r.log.Some? ==> r.text == LookupPath(defaults, key, overrideLocale))
      && (r.log == Some(Error) <==> overrideDictionary.None? && compiled.None?)
  {
    var path := LookupPath(defaults, key, overrideLocale);
    var scoped := overrideDictionary.OrElse(compiled);
    match OldResolve(compiled, path, scoped)
    case Found(text) => Translated(text, None)
    case Unreached => Translated(path, Some(Warning))
    case NotString => Translated(path, Some(Warning))
    case _ => Translated(path, Some(Error))
  }

  /** Both versions agree once the older one's dictionary choice is passed to the newer one. */
  lemma OldTranslateIsTranslate(defaults: Defaults, decode: Decoder, compiled: Option<Dictionary>, key: string,
                                overrideDictionary: Option<Dictionary>, overrideLocale: Option<string>)
    ensures OldTranslate(defaults, compiled, key, overrideDictionary, overrideLocale)
            == Translate(defaults, decode, key, AsThisDictionary(overrideDictionary.OrElse(compiled)), overrideLocale)
  {
  }

  /** In a browser, with no override, every lookup is an error that returns the path. */
  lemma OldTranslateInBrowser(defaults: Defaults, key: string, overrideLocale: Option<string>)
    ensures OldTranslate(defaults, None, key, None, overrideLocale)
            == Translated(LookupPath(defaults, key, overrideLocale), Some(Error))
  {
  }

  /**
   * The older `genT`: locale, namespace and dictionary default before the function is built.
   * Each call of the function translates the key under the namespace, with the call's
   * dictionary, else `genT`'s own, and the call's locale, else `genT`'s; holding the compiled
   * dictionary as the default is the same as leaving that fallback to `translate`.
   */
  function OldGenT(defaults: Defaults, compiled: Option<Dictionary>, genLocale: Option<string>,
                   genNamespace: Option<string>, genDictionary: Option<Dictionary>): (r: OldTFunction)
    ensures forall key, overrideDictionary, overrideLocale ::
              r(key, overrideDictionary, overrideLocale) ==
                OldTranslate(defaults, compiled, genNamespace.GetOr(defaults.namespace) + "." + key,
                             overrideDictionary.OrElse(genDictionary),
                             Some(overrideLocale.GetOr(genLocale.GetOr(defaults.locale))))
  {
    var locale := genLocale.GetOr(defaults.locale);
    var namespace := genNamespace.GetOr(defaults.namespace);
    var held := genDictionary.OrElse(compiled);
    (key: string, overrideDictionary: Option<Dictionary>, overrideLocale: Option<string>) =>
      OldTranslate(defaults, compiled, namespace + "." + key, overrideDictionary.OrElse(held),
                   Some(overrideLocale.GetOr(locale)))
  }

  /**
   * Once the older `genT` holds a dictionary of its own, the compiled dictionary plays no part:
   * the function behaves the same in a browser, where there is none.
   */
  lemma OldGenTOwnDictionary(defaults: Defaults, compiled: Option<Dictionary>, genLocale: Option<string>,
                             genNamespace: Option<string>, genDictionary: Dictionary, key: string,
                             overrideDictionary: Option<Dictionary>, overrideLocale: Option<string>)
    ensures OldGenT(defaults, compiled, genLocale, genNamespace, Some(genDictionary))(key, overrideDictionary, overrideLocale)
            == OldGenT(defaults, None, genLocale, genNamespace, Some(genDictionary))(key, overrideDictionary, overrideLocale)
    ensures OldGenT(defaults, compiled, genLocale, genNamespace, Some(genDictionary))(key, overrideDictionary, overrideLocale).log
            != Some(Error)
  {
  }

  /** The older `adaptNamespace`; its `?? undefined` leaves both optional arguments as they are. */
  function OldAdaptNamespace(oldFunction: OldTFunction, newNamespace: string): (r: OldTFunction)
    ensures forall key, overrideDictionary, overrideLocale ::
              r(key, overrideDictionary, overrideLocale) ==
                oldFunction(newNamespace + "." + key, overrideDictionary, overrideLocale)
  {
    var f := (key: string, overrideDictionary: Option<Dictionary>, overrideLocale: Option<string>) =>
      oldFunction(newNamespace + "." + key, overrideDictionary.OrElse(None), overrideLocale.OrElse(None));
    // Applying the lambda, `?? undefined` drops out by `OrElse`'s contract.
    assert forall key, overrideDictionary: Option<Dictionary>, overrideLocale: Option<string> ::
      f(key, overrideDictionary, overrideLocale)
        == oldFunction(newNamespace + "." + key, overrideDictionary.OrElse(None), overrideLocale.OrElse(None));
    f
  }

  /** Adapting passes calls through with the namespace prefixed, and adapting twice composes. */
  lemma OldAdaptNamespaceCompose(f: OldTFunction, a: string, b: string, key: string,
                                 overrideDictionary: Option<Dictionary>, overrideLocale: Option<string>)
    ensures OldAdaptNamespace(f, a)(key, overrideDictionary, overrideLocale)
            == f(a + "." + key, overrideDictionary, overrideLocale)
    ensures OldAdaptNamespace(OldAdaptNamespace(f, a), b)(key, overrideDictionary, overrideLocale)
            == OldAdaptNamespace(f, a + "." + b)(key, overrideDictionary, overrideLocale)
  {
    assert overrideDictionary.OrElse(None) == overrideDictionary;
    assert overrideLocale.OrElse(None) == overrideLocale;
    assert a + "." + (b + "." + key) == (a + "." + b) + "." + key;
  }

  /**
   * Looking up `{namespace}.{key}` for a supported locale in the compiled dictionary walks
   * the key inside that locale's namespace.
   */
  lemma CompiledLookup(c: LocaleConfig, files: Files, locale: string, namespace: string, key: string, s: string)
    requires InheritsSupported(c) && locale in c.supported.locales
    requires '.' !in locale && '.' !in namespace
    ensures OldTranslate(c.defaults, Some(Compiled(c, files)), namespace + "." + key, None, Some(locale))
              == Translated(s, None)
            <==> Walk(Node(Compiled(c, files)[locale]), [namespace] + Split(key)) == Reached(Leaf(s))
  {
    var d := Compiled(c, files);
    CompiledLocales(c, files);
    LookupPathSegments(locale, namespace + "." + key);
    LookupPathSegments(namespace, key);
    var segs := [locale] + ([namespace] + Split(key));
    assert segs[0] == locale && segs[1..] == [namespace] + Split(key);
    assert AsReference(d).children[locale] == Node(d[locale]);
  }

  /**
   * End to end, for a locale without inheritance: its own string wins, and a string only the
   * global fragments hold is found under the locale too.
   */
  lemma CompiledLookupStandalone(c: LocaleConfig, files: Files, locale: string, namespace: string, key: string, s: string)
    requires InheritsSupported(c) && locale in c.supported.locales && !HasChain(c, locale)
    requires '.' !in locale && '.' !in namespace
    ensures var p := [namespace] + Split(key);
      OldTranslate(c.defaults, Some(Compiled(c, files)), namespace + "." + key, None, Some(locale)) == Translated(s, None)
      <==> (Walk(Node(LocaleFragments(c, files, locale)), p) == Reached(Leaf(s))
            || (Walk(Node(LocaleFragments(c, files, locale)), p).Missing?
                && Walk(Node(GlobalFragments(c, files)), p) == Reached(Leaf(s))))
  {
    CompiledLookup(c, files, locale, namespace, key, s);
    CompiledStandalone(c, files, locale);
    MergeTreesLeaf(GlobalFragments(c, files), LocaleFragments(c, files, locale), [namespace] + Split(key), s);
  }
}
