/**
 * The translation resolver of source/translate.ts: `getTranslation` walks the dotted path
 * `{locale}.{key}` through a dictionary; `translate` turns every failure into the path itself,
 * tagged with the severity it is logged at; `genT` and `adaptNamespace` build translation
 * functions that prefix namespaces.
 *
 * A dictionary given as a string is decompressed and parsed first; that step is the
 * parameter `decode`, with `None` where it throws.
 */
module Resolver {
  import opened Wrappers
  import opened Trees
  import opened Paths
  import opened Config

  /** `NextLocTypes.ThisDictionaryType`: a dictionary object, or its compressed JSON text. */
  datatype ThisDictionary = Raw(tree: Tree) | Compressed(data: string)

  /** Decompression followed by `JSON.parse`; `None` where either throws. */
  type Decoder = string -> Option<Reference>

  /**
   * What `getTranslation` does: returns a string (`Found`), returns `undefined` (`Unreached`),
   * or throws "Translation not found" (`NotString`), "No dictionary provided" (`NoDictionary`)
   * or the decoder's own error (`Undecodable`).
   */
  datatype Lookup = Found(text: string) | Unreached | NotString | NoDictionary | Undecodable

  datatype Severity = Warning | Error

  /** The `LocalisedString` returned, and the console method the failure was logged with. */
  datatype Translated = Translated(text: string, log: Option<Severity>)

  /** `translate`'s signature: key, optional dictionary, optional locale. */
  type TFunction = (string, Option<ThisDictionary>, Option<string>) -> Translated

  /** The `for` loop of `getTranslation`, reassigning `translation` one segment at a time. */
  method WalkSegments(root: Reference, segments: seq<string>) returns (s: Step)
    ensures s == Walk(root, segments)
  {
    var translation := root;
    for i := 0 to |segments|
      invariant Walk(root, segments) == Walk(translation, segments[i..])
    {
      assert segments[i..][0] == segments[i] && segments[i..][1..] == segments[i + 1..];
      if !(translation.Node? && segments[i] in translation.children) {
        return if translation.Node? then Missing else Blocked;
      }
      translation := translation.children[segments[i]];
    }
    assert segments[|segments|..] == [];
    return Reached(translation);
  }

  /** How a finished walk ends `getTranslation`. */
  function Outcome(s: Step): (r: Lookup)
    ensures r.Found? <==> s.Reached? && s.node.Leaf?
    ensures r.Found? ==> r.text == s.node.text
    ensures r == NotString <==> s.Reached? && s.node.Node?
    ensures r == Unreached <==> !s.Reached?
  {
    match s
    case Reached(Leaf(text)) => Found(text)
    case Reached(Node(_)) => NotString
    case _ => Unreached
  }

  /** The tree a dictionary argument stands for, when there is one (a non-empty string decodes). */
  function Root(decode: Decoder, dictionary: ThisDictionary): Option<Reference>
  {
    match dictionary
    case Raw(tree) => Some(Node(tree))
    case Compressed(data) => if data == "" then None else decode(data)
  }

  /** What `getTranslation(key, dictionary)` does. */
  function Resolve(decode: Decoder, key: string, dictionary: Option<ThisDictionary>): (r: Lookup)
    ensures r == NoDictionary <==> dictionary.None? || dictionary.value == Compressed("")
    ensures r == Undecodable <==> (dictionary.Some? && dictionary.value.Compressed?
      && dictionary.value.data != "" && decode(dictionary.value.data).None?)
    ensures r.Found? <==> (dictionary.Some? && Root(decode, dictionary.value).Some?
      && Walk(Root(decode, dictionary.value).value, Split(key)).Reached?
      && Walk(Root(decode, dictionary.value).value, Split(key)).node.Leaf?)
    ensures r.Found? ==> (dictionary.Some? && Root(decode, dictionary.value).Some?
      && Walk(Root(decode, dictionary.value).value, Split(key)) == Reached(Leaf(r.text)))
  {
    if dictionary.None? || dictionary.value == Compressed("") then NoDictionary
    else
      var root := Root(decode, dictionary.value);
      if root.None? then Undecodable else Outcome(Walk(root.value, Split(key)))
  }

  /** `getTranslation`. */
  method GetTranslation(decode: Decoder, key: string, dictionary: Option<ThisDictionary>) returns (r: Lookup)
    ensures r == Resolve(decode, key, dictionary)
  {
    var segments := Split(key);
    if dictionary.None? || dictionary.value == Compressed("") {
      return NoDictionary;
    }
    var translation: Reference;
    match dictionary.value {
      case Compressed(data) =>
        var parsed := decode(data);
        if parsed.None? {
          return Undecodable;
        }
        translation := parsed.value;
      case Raw(tree) =>
        translation := Node(tree);
    }
    var s := WalkSegments(translation, segments);
    r := Outcome(s);
  }

  /** The path `translate` looks up: the override locale, or the default one, then the key. */
  function LookupPath(defaults: Defaults, key: string, overrideLocale: Option<string>): (r: string)
    ensures var locale := overrideLocale.GetOr(defaults.locale);
      && |r| == |locale| + 1 + |key|
      && r[..|locale|] == locale && r[|locale|] == '.' && r[|locale| + 1..] == key
  {
    overrideLocale.GetOr(defaults.locale) + "." + key
  }

  /**
   * `translate`: the string found, or else the lookup path, logged as a warning when the
   * path leads nowhere or to an object, and as an error when there is no usable dictionary.
   * It never throws.
   */
  function Translate(defaults: Defaults, decode: Decoder, key: string,
                     dictionary: Option<ThisDictionary>, overrideLocale: Option<string>): (r: Translated)
    ensures var found := Resolve(decode, LookupPath(defaults, key, overrideLocale), dictionary);
      && (r.log.None? <==> found.Found?)
      && (r.log.None? ==> r.text == found.text)
      && (r.log.Some? ==> r.text == LookupPath(defaults, key, overrideLocale))
      && (r.log == Some(Error) <==> found == NoDictionary || found == Undecodable)
  {
    var path := LookupPath(defaults, key, overrideLocale);
    match Resolve(decode, path, dictionary)
    case Found(text) => Translated(text, None)
    case Unreached => Translated(path, Some(Warning))
    case NotString => Translated(path, Some(Warning))
    case _ => Translated(path, Some(Error))
  }

  /** A locale without dots is the first segment of every lookup path. */
  lemma LookupPathSegments(locale: string, key: string)
    requires '.' !in locale
    ensures Split(locale + "." + key) == [locale] + Split(key)
  {
    SplitDotted(locale, key);
    SplitPlain(locale);
  }

  /**
   * Against a dictionary tree, `translate` returns a string exactly when the walk of
   * `{locale}.{key}` ends on that string, and otherwise warns and returns the path.
   */
  lemma TranslateRaw(defaults: Defaults, decode: Decoder, key: string, tree: Tree,
                     overrideLocale: Option<string>, s: string)
    ensures var path := LookupPath(defaults, key, overrideLocale);
      && (Translate(defaults, decode, key, Some(Raw(tree)), overrideLocale) == Translated(s, None)
          <==> Walk(Node(tree), Split(path)) == Reached(Leaf(s)))
      && (!(Walk(Node(tree), Split(path)).Reached? && Walk(Node(tree), Split(path)).node.Leaf?) ==>
          Translate(defaults, decode, key, Some(Raw(tree)), overrideLocale) == Translated(path, Some(Warning)))
  {
  }

  /** Without a dictionary, `translate` logs an error and returns the path. */
  lemma TranslateNoDictionary(defaults: Defaults, decode: Decoder, key: string, overrideLocale: Option<string>)
    ensures Translate(defaults, decode, key, None, overrideLocale)
            == Translated(LookupPath(defaults, key, overrideLocale), Some(Error))
    ensures Translate(defaults, decode, key, Some(Compressed("")), overrideLocale)
            == Translated(LookupPath(defaults, key, overrideLocale), Some(Error))
  {
  }

  /**
   * Against a dictionary tree whose top level is keyed by locale, the lookup starts inside
   * the locale's own tree; a locale the tree lacks is a warning.
   */
  lemma TranslateInLocale(defaults: Defaults, decode: Decoder, key: string, locales: map<string, Reference>,
                          locale: string, s: string)
    requires '.' !in locale
    ensures locale !in locales ==>
      Translate(defaults, decode, key, Some(Raw(locales)), Some(locale)) == Translated(locale + "." + key, Some(Warning))
    ensures locale in locales ==>
      (Translate(defaults, decode, key, Some(Raw(locales)), Some(locale)) == Translated(s, None)
       <==> Walk(locales[locale], Split(key)) == Reached(Leaf(s)))
  {
    LookupPathSegments(locale, key);
    var segs := [locale] + Split(key);
    assert segs[0] == locale && segs[1..] == Split(key);
  }

  /** The locale defaults to the configured default locale. */
  lemma TranslateDefaultLocale(defaults: Defaults, decode: Decoder, key: string, dictionary: Option<ThisDictionary>)
    ensures Translate(defaults, decode, key, dictionary, None)
            == Translate(defaults, decode, key, dictionary, Some(defaults.locale))
  {
  }

  /**
   * A compressed dictionary that decodes to an object behaves like that object; one that
   * decodes to a JSON string leads nowhere, so the lookup warns and returns the path.
   */
  lemma TranslateDecoded(defaults: Defaults, decode: Decoder, key: string, data: string, overrideLocale: Option<string>)
    requires data != "" && decode(data).Some?
    ensures decode(data).value.Node? ==>
      Translate(defaults, decode, key, Some(Compressed(data)), overrideLocale)
        == Translate(defaults, decode, key, Some(Raw(decode(data).value.children)), overrideLocale)
    ensures decode(data).value.Leaf? ==>
      Translate(defaults, decode, key, Some(Compressed(data)), overrideLocale)
        == Translated(LookupPath(defaults, key, overrideLocale), Some(Warning))
  {
  }

  /**
   * The dictionary `genT` keeps: the argument, decoded unless decoding is delayed. Text that
   * parses to a JSON string is kept as that string, which a lookup decompresses again.
   */
  function Held(decode: Decoder, genDictionary: Option<ThisDictionary>, delayDecompression: bool): Option<ThisDictionary>
    requires !(genDictionary.Some? && genDictionary.value.Compressed? && !delayDecompression
               && decode(genDictionary.value.data).None?)
  {
    if genDictionary.Some? && genDictionary.value.Compressed? && !delayDecompression
    then
      match decode(genDictionary.value.data).value
      case Node(tree) => Some(Raw(tree))
      case Leaf(text) => Some(Compressed(text))
    else genDictionary
  }

  /**
   * Where holding the decoded argument is the same as holding the argument: anything but
   * eagerly decoded text that is empty (which the resolver treats as no dictionary, but `genT`
   * decodes) or whose JSON is itself a string.
   */
  predicate HeldAsGiven(decode: Decoder, genDictionary: Option<ThisDictionary>, delayDecompression: bool)
  {
    !(genDictionary.Some? && genDictionary.value.Compressed? && !delayDecompression
      && (genDictionary.value.data == ""
          || (decode(genDictionary.value.data).Some? && decode(genDictionary.value.data).value.Leaf?)))
  }

  /**
   * `genT(genLocale, genNamespace, genDictionary, { delayDecompression })`. It fails (throws)
   * only when it decodes a string eagerly and decoding throws. The function it returns
   * prefixes the namespace and fills in the held dictionary and locale. Text decoded eagerly
   * is held as the object it decodes to, or as the string its JSON is; except for an empty
   * string and a string decoded to a JSON string, that is the same as holding the text.
   */
  function GenT(defaults: Defaults, decode: Decoder, genLocale: Option<string>, genNamespace: Option<string>,
                genDictionary: Option<ThisDictionary>, delayDecompression: bool): (r: Option<TFunction>)
    ensures r.None? <==> genDictionary.Some? && genDictionary.value.Compressed? && !delayDecompression
                         && decode(genDictionary.value.data).None?
    ensures r.Some? && HeldAsGiven(decode, genDictionary, delayDecompression) ==>
      forall key, dictionary, overrideLocale :: r.value(key, dictionary, overrideLocale) ==
        Translate(defaults, decode, genNamespace.GetOr(defaults.namespace) + "." + key,
                  dictionary.OrElse(genDictionary), Some(overrideLocale.GetOr(genLocale.GetOr(defaults.locale))))
    ensures r.Some? && genDictionary.Some? && genDictionary.value.Compressed? && !delayDecompression
            && decode(genDictionary.value.data).value.Leaf? ==>
      forall key, dictionary, overrideLocale :: r.value(key, dictionary, overrideLocale) ==
        Translate(defaults, decode, genNamespace.GetOr(defaults.namespace) + "." + key,
                  dictionary.OrElse(Some(Compressed(decode(genDictionary.value.data).value.text))),
                  Some(overrideLocale.GetOr(genLocale.GetOr(defaults.locale))))
    ensures r.Some? && genDictionary.Some? && genDictionary.value.Compressed? && !delayDecompression
            && decode(genDictionary.value.data).value.Node? ==>
      forall key, dictionary, overrideLocale :: r.value(key, dictionary, overrideLocale) ==
        Translate(defaults, decode, genNamespace.GetOr(defaults.namespace) + "." + key,
                  dictionary.OrElse(Some(Raw(decode(genDictionary.value.data).value.children))),
                  Some(overrideLocale.GetOr(genLocale.GetOr(defaults.locale))))
  {
    var locale := genLocale.GetOr(defaults.locale);
    var namespace := genNamespace.GetOr(defaults.namespace);
    if genDictionary.Some? && genDictionary.value.Compressed? && !delayDecompression
       && decode(genDictionary.value.data).None?
    then None
    else
      var held := Held(decode, genDictionary, delayDecompression);
      Some((key: string, dictionary: Option<ThisDictionary>, overrideLocale: Option<string>) =>
        Translate(defaults, decode, namespace + "." + key, dictionary.OrElse(held), Some(overrideLocale.GetOr(locale))))
  }

  /** `adaptNamespace(oldFunction, newNamespace)`. */
  function AdaptNamespace(oldFunction: TFunction, newNamespace: string): (r: TFunction)
    ensures forall key, dictionary, overrideLocale ::
              r(key, dictionary, overrideLocale) == oldFunction(newNamespace + "." + key, dictionary, overrideLocale)
  {
    (key: string, dictionary: Option<ThisDictionary>, overrideLocale: Option<string>) =>
      oldFunction(newNamespace + "." + key, dictionary, overrideLocale)
  }

  /** Adapting twice is adapting once to the joined namespace; arguments pass through. */
  lemma AdaptNamespaceCompose(f: TFunction, a: string, b: string, key: string,
                              dictionary: Option<ThisDictionary>, overrideLocale: Option<string>)
    ensures AdaptNamespace(AdaptNamespace(f, a), b)(key, dictionary, overrideLocale)
            == AdaptNamespace(f, a + "." + b)(key, dictionary, overrideLocale)
    ensures AdaptNamespace(f, a)(key, dictionary, overrideLocale) == f(a + "." + key, dictionary, overrideLocale)
  {
    assert a + "." + (b + "." + key) == (a + "." + b) + "." + key;
  }

  /** A function adapted from `genT` looks up `{locale}.{namespace}.{subnamespace}.{key}`. */
  lemma GenTAdapted(defaults: Defaults, decode: Decoder, genLocale: Option<string>, genNamespace: Option<string>,
                    genDictionary: Option<ThisDictionary>, delayDecompression: bool, sub: string,
                    key: string, dictionary: Option<ThisDictionary>, overrideLocale: Option<string>)
    requires GenT(defaults, decode, genLocale, genNamespace, genDictionary, delayDecompression).Some?
    requires HeldAsGiven(decode, genDictionary, delayDecompression)
    ensures var f := GenT(defaults, decode, genLocale, genNamespace, genDictionary, delayDecompression).value;
      AdaptNamespace(f, sub)(key, dictionary, overrideLocale) ==
        Translate(defaults, decode, genNamespace.GetOr(defaults.namespace) + "." + sub + "." + key,
                  dictionary.OrElse(genDictionary), Some(overrideLocale.GetOr(genLocale.GetOr(defaults.locale))))
  {
    var n := genNamespace.GetOr(defaults.namespace);
    var f := GenT(defaults, decode, genLocale, genNamespace, genDictionary, delayDecompression).value;
    assert AdaptNamespace(f, sub)(key, dictionary, overrideLocale) == f(sub + "." + key, dictionary, overrideLocale);
    assert n + "." + (sub + "." + key) == n + "." + sub + "." + key;
  }

  /**
   * Delaying decompression changes which step decodes, not what is found: for a non-empty
   * string that decodes to an object, the eager and the delayed function agree on every call.
   * When it decodes to a JSON string, the delayed function warns on every lookup that falls
   * back to the held text.
   */
  lemma GenTDelayIrrelevant(defaults: Defaults, decode: Decoder, genLocale: Option<string>, genNamespace: Option<string>,
                            data: string, key: string, dictionary: Option<ThisDictionary>, overrideLocale: Option<string>)
    requires data != "" && decode(data).Some?
    ensures GenT(defaults, decode, genLocale, genNamespace, Some(Compressed(data)), false).Some?
    ensures decode(data).value.Node? ==>
      GenT(defaults, decode, genLocale, genNamespace, Some(Compressed(data)), false).value(key, dictionary, overrideLocale)
        == GenT(defaults, decode, genLocale, genNamespace, Some(Compressed(data)), true).value(key, dictionary, overrideLocale)
    ensures decode(data).value.Leaf? ==>
      GenT(defaults, decode, genLocale, genNamespace, Some(Compressed(data)), true).value(key, None, overrideLocale)
        == Translated(overrideLocale.GetOr(genLocale.GetOr(defaults.locale)) + "." + (genNamespace.GetOr(defaults.namespace) + "." + key),
                      Some(Warning))
  {
  }
}
