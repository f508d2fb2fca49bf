/**
 * `compileDictionary` (source/internal/compileDictionary.ts): for every supported locale it
 * loads one fragment per supported namespace, folds each locale's inheritance chain into it,
 * and finally lays the locale-independent global fragments underneath every locale.
 *
 * Reading a file and parsing it is replaced by a given map from path to parsed contents.
 * Each stage is a method with the loop of the source, proved equal to a specification
 * function; the lemmas below state what those functions promise.
 */
module Compiler {
  import opened Wrappers
  import opened Trees
  import opened Paths
  import opened Config

  /** `NextLocTypes.Dictionary`: locale -> locale dictionary (namespace -> tree). */
  type Dictionary = map<string, Tree>

  /**
   * The file system as the compiler sees it: a path that is absent cannot be read; a path
   * mapped to `None` can be read but does not parse.
   */
  type Files = map<string, Option<Reference>>

  /** The directory that stands in for the locale when global fragments are loaded. */
  const GlobalDirName := "GLOBAL"

  /** `JSON.parse(fs.readFileSync(path))`, with `None` for the `catch` branch. */
  function Load(files: Files, path: string): (r: Option<Reference>)
    ensures r.Some? <==> path in files && files[path].Some?
    ensures r.Some? ==> r == files[path]
  {
    if path in files then files[path] else None
  }

  // ---------------------------------------------------------------------------------
  // Stage 1: loading the fragments of one directory (a locale, or GLOBAL)
  // ---------------------------------------------------------------------------------

  /** The object the namespace loop fills: one entry per fragment that loaded. */
  function Fragments(files: Files, template: string, dir: string, namespaces: seq<string>): Tree
  {
    if namespaces == [] then map[]
    else
      var last := namespaces[|namespaces| - 1];
      var m := Fragments(files, template, dir, namespaces[..|namespaces| - 1]);
      var contents := Load(files, FragmentPath(template, dir, last));
      if contents.Some? then m[last := contents.value] else m
  }

  /** The paths whose load failed, in the order they were tried (one error report each). */
  function FragmentFailures(files: Files, template: string, dir: string, namespaces: seq<string>): seq<string>
  {
    if namespaces == [] then []
    else
      var last := namespaces[|namespaces| - 1];
      var path := FragmentPath(template, dir, last);
      FragmentFailures(files, template, dir, namespaces[..|namespaces| - 1])
        + (if Load(files, path).Some? then [] else [path])
  }

  /**
   * A namespace is present exactly when it is listed and its fragment loaded, and then it
   * holds the parsed fragment; a failed load leaves it absent and is reported, and loading
   * goes on with the next namespace.
   */
  lemma {:induction false} FragmentsSpec(files: Files, template: string, dir: string, namespaces: seq<string>)
    ensures forall ns :: ns in Fragments(files, template, dir, namespaces) <==>
      ns in namespaces && Load(files, FragmentPath(template, dir, ns)).Some?
    ensures forall ns :: ns in Fragments(files, template, dir, namespaces) ==>
      Fragments(files, template, dir, namespaces)[ns] == Load(files, FragmentPath(template, dir, ns)).value
    ensures forall p :: p in FragmentFailures(files, template, dir, namespaces) <==>
      exists ns :: ns in namespaces && p == FragmentPath(template, dir, ns) && Load(files, p).None?
    decreases |namespaces|
  {
    if namespaces != [] {
      var init := namespaces[..|namespaces| - 1];
      FragmentsSpec(files, template, dir, init);
      assert namespaces == init + [namespaces[|namespaces| - 1]];
    }
  }

  /** The inner `for` loop over namespaces (and the loop over global namespaces). */
  method LoadFragments(files: Files, template: string, dir: string, namespaces: seq<string>)
    returns (ld: Tree, failed: seq<string>)
    ensures ld == Fragments(files, template, dir, namespaces)
    ensures failed == FragmentFailures(files, template, dir, namespaces)
  {
    ld, failed := map[], [];
    for j := 0 to |namespaces|
      invariant ld == Fragments(files, template, dir, namespaces[..j])
      invariant failed == FragmentFailures(files, template, dir, namespaces[..j])
    {
      assert namespaces[..j + 1][..j] == namespaces[..j];
      var path := FragmentPath(template, dir, namespaces[j]);
      var contents := Load(files, path);
      if contents.Some? {
        ld := ld[namespaces[j] := contents.value];
      } else {
        failed := failed + [path];
      }
    }
    assert namespaces[..|namespaces|] == namespaces;
  }

  /** What the direct-load loop puts under `locale`. */
  function LocaleFragments(c: LocaleConfig, files: Files, locale: string): Tree
  {
    Fragments(files, c.other.dictionaryPath, locale, c.supported.namespaces)
  }

  /** The global dictionary: the global namespaces, loaded from the GLOBAL directory. */
  function GlobalFragments(c: LocaleConfig, files: Files): Tree
  {
    Fragments(files, c.other.dictionaryPath, GlobalDirName, c.supported.globalNamespaces)
  }

  /**
   * With the configuration of source/config.ts, a locale's fragment and a global fragment
   * are read from these files.
   */
  lemma SampleFragmentPaths(namespace: string)
    requires BraceFree(namespace)
    ensures FragmentPath(SampleConfig.other.dictionaryPath, "en-GB", namespace)
            == "src/locale/dictionary/" + "en-GB" + "/" + namespace + ".json"
    ensures FragmentPath(SampleConfig.other.dictionaryPath, GlobalDirName, namespace)
            == "src/locale/dictionary/" + GlobalDirName + "/" + namespace + ".json"
  {
    SampleTemplateShape();
    FragmentPathShape("src/locale/dictionary/", "/", ".json", "en-GB", namespace);
    FragmentPathShape("src/locale/dictionary/", "/", ".json", GlobalDirName, namespace);
  }

  lemma SampleTemplateShape()
    ensures SampleConfig.other.dictionaryPath
            == "src/locale/dictionary/" + LocalePlaceholder + "/" + NamespacePlaceholder + ".json"
    ensures BraceFree("src/locale/dictionary/") && BraceFree("/") && BraceFree(".json")
    ensures BraceFree("en-GB") && BraceFree(GlobalDirName)
  {
    assert SampleConfig.other.dictionaryPath == "src/locale/dictionary/{locale}/{namespace}.json";
    assert "src/locale/dictionary/" + LocalePlaceholder == "src/locale/dictionary/{locale}";
    assert "src/locale/dictionary/{locale}" + "/" == "src/locale/dictionary/{locale}/";
    assert "src/locale/dictionary/{locale}/" + NamespacePlaceholder == "src/locale/dictionary/{locale}/{namespace}";
    assert "src/locale/dictionary/{locale}/{namespace}" + ".json" == "src/locale/dictionary/{locale}/{namespace}.json";
  }

  /** The dictionary after the direct-load loop: every supported locale, with what loaded. */
  function DirectLoad(c: LocaleConfig, files: Files): (d: Dictionary)
    ensures forall l :: l in d <==> l in c.supported.locales
  {
    LoadedLocales(c, files, c.supported.locales)
  }

  /** The dictionary once the locales in `locales` have been loaded. */
  function LoadedLocales(c: LocaleConfig, files: Files, locales: seq<string>): Dictionary
  {
    map l | l in locales :: LocaleFragments(c, files, l)
  }

  /** Loading one more locale adds (or rewrites identically) that locale's entry. */
  lemma LoadedLocalesStep(c: LocaleConfig, files: Files, locales: seq<string>, locale: string)
    ensures LoadedLocales(c, files, locales + [locale])
            == LoadedLocales(c, files, locales)[locale := LocaleFragments(c, files, locale)]
  {
    var a := LoadedLocales(c, files, locales + [locale]);
    var b := LoadedLocales(c, files, locales)[locale := LocaleFragments(c, files, locale)];
    forall l
      ensures l in a <==> l in b
    {
      assert l in locales + [locale] <==> l in locales || l == locale;
    }
  }

  function DirectFailures(c: LocaleConfig, files: Files, locales: seq<string>): seq<string>
  {
    if locales == [] then []
    else
      DirectFailures(c, files, locales[..|locales| - 1])
        + FragmentFailures(files, c.other.dictionaryPath, locales[|locales| - 1], c.supported.namespaces)
  }

  /** The outer `for` loop over supported locales. */
  method LoadLocales(c: LocaleConfig, files: Files) returns (d: Dictionary, failed: seq<string>)
    ensures d == DirectLoad(c, files)
    ensures failed == DirectFailures(c, files, c.supported.locales)
  {
    var locales := c.supported.locales;
    d, failed := map[], [];
    for i := 0 to |locales|
      invariant d == LoadedLocales(c, files, locales[..i])
      invariant failed == DirectFailures(c, files, locales[..i])
    {
      assert locales[..i + 1] == locales[..i] + [locales[i]];
      LoadedLocalesStep(c, files, locales[..i], locales[i]);
      var ld, f := LoadFragments(files, c.other.dictionaryPath, locales[i], c.supported.namespaces);
      d := d[locales[i] := ld];
      failed := failed + f;
    }
    assert locales[..|locales|] == locales;
  }

  // ---------------------------------------------------------------------------------
  // Stage 2: the inheritance fold
  // ---------------------------------------------------------------------------------

  /**
   * `i_locale in inherits && Array.isArray(inherits[i_locale])`. In a valid configuration a
   * locale with a chain is supported and not in its own chain.
   */
  predicate HasChain(c: LocaleConfig, locale: string)
    ensures HasChain(c, locale) ==>
      && locale in c.meta.inherits && c.meta.inherits[locale].Some?
      && (Valid(c) ==> locale in c.supported.locales && locale !in c.meta.inherits[locale].value)
  {
    locale in c.meta.inherits && c.meta.inherits[locale].Some?
  }

  predicate Covers(c: LocaleConfig, d: Dictionary)
  {
    forall l :: l in c.supported.locales ==> l in d
  }

  /**
   * The chain loop of one locale: the chain is walked from its last entry to its first, and
   * each step merges the inherited locale's current dictionary under the locale's current one.
   */
  function ApplyChain(d: Dictionary, locale: string, chain: seq<string>): (r: Dictionary)
    requires locale in d && forall x :: x in chain ==> x in d
    ensures r.Keys == d.Keys
  {
    if chain == [] then d
    else
      var d' := ApplyChain(d, locale, chain[1..]);
      d'[locale := MergeTrees(d'[chain[0]], d'[locale])]
  }

  /** One iteration of the outer inheritance loop. */
  function FoldOne(c: LocaleConfig, d: Dictionary, locale: string): (r: Dictionary)
    requires InheritsSupported(c) && Covers(c, d) && locale in d
    ensures r.Keys == d.Keys
  {
    if HasChain(c, locale) then ApplyChain(d, locale, c.meta.inherits[locale].value) else d
  }

  /** The inheritance loop over `locales`, in order, each step seeing the state the previous left. */
  function FoldAll(c: LocaleConfig, d: Dictionary, locales: seq<string>): (r: Dictionary)
    requires InheritsSupported(c) && Covers(c, d)
    requires forall l :: l in locales ==> l in c.supported.locales
    ensures r.Keys == d.Keys
  {
    if locales == [] then d
    else FoldOne(c, FoldAll(c, d, locales[..|locales| - 1]), locales[|locales| - 1])
  }

  /** The inheritance loop of the compiler. */
  method FoldInheritance(c: LocaleConfig, d0: Dictionary) returns (d: Dictionary)
    requires InheritsSupported(c) && Covers(c, d0)
    ensures d == FoldAll(c, d0, c.supported.locales)
  {
    var locales := c.supported.locales;
    d := d0;
    for i := 0 to |locales|
      invariant d == FoldAll(c, d0, locales[..i])
    {
      assert locales[..i + 1][..i] == locales[..i];
      var locale := locales[i];
      if locale in c.meta.inherits && c.meta.inherits[locale].Some? {
        var chain := c.meta.inherits[locale].value;
        ghost var before := d;
        // `for (const i_inherited of chain.toReversed())`
        var j := |chain|;
        while j > 0
          invariant 0 <= j <= |chain|
          invariant d == ApplyChain(before, locale, chain[j..])
        {
          j := j - 1;
          assert chain[j..][1..] == chain[j + 1..];
          d := d[locale := MergeTrees(d[chain[j]], d[locale])];
        }
      }
    }
    assert locales[..|locales|] == locales;
  }

  /**
   * The closed form of a chain: `chain[0]` under `chain[1]` under ... under the locale's own
   * dictionary, so the own content wins, then the last-listed inherited locale, and so on.
   */
  function Inherited(d: Dictionary, chain: seq<string>, own: Tree): Tree
    requires forall x :: x in chain ==> x in d
  {
    if chain == [] then own else MergeTrees(d[chain[0]], Inherited(d, chain[1..], own))
  }

  /** The chain of one locale touches only that locale. */
  lemma {:induction false} ApplyChainOther(d: Dictionary, locale: string, chain: seq<string>, other: string)
    requires locale in d && forall x :: x in chain ==> x in d
    requires other in d && other != locale
    ensures ApplyChain(d, locale, chain)[other] == d[other]
  {
    if chain != [] {
      ApplyChainOther(d, locale, chain[1..], other);
    }
  }

  /** When the locale is not in its own chain, the chain loop computes the closed form. */
  lemma {:induction false} ApplyChainClosed(d: Dictionary, locale: string, chain: seq<string>)
    requires locale in d && forall x :: x in chain ==> x in d
    requires locale !in chain
    ensures ApplyChain(d, locale, chain) == d[locale := Inherited(d, chain, d[locale])]
  {
    if chain != [] {
      ApplyChainClosed(d, locale, chain[1..]);
    }
  }

  /** The closed form only reads the dictionaries of the chain's locales. */
  lemma {:induction false} InheritedFrame(d: Dictionary, e: Dictionary, chain: seq<string>, own: Tree)
    requires forall x :: x in chain ==> x in d && x in e && d[x] == e[x]
    ensures Inherited(d, chain, own) == Inherited(e, chain, own)
  {
    if chain != [] {
      InheritedFrame(d, e, chain[1..], own);
    }
  }

  /** The fold over two runs of locales is the fold over the first, then over the second. */
  lemma {:induction false} FoldAllConcat(c: LocaleConfig, d: Dictionary, a: seq<string>, b: seq<string>)
    requires InheritsSupported(c) && Covers(c, d)
    requires forall l :: l in a + b ==> l in c.supported.locales
    ensures FoldAll(c, d, a + b) == FoldAll(c, FoldAll(c, d, a), b)
    decreases |b|
  {
    if b == [] {
      assert a + b == a;
    } else {
      assert (a + b)[..|a + b| - 1] == a + b[..|b| - 1];
      FoldAllConcat(c, d, a, b[..|b| - 1]);
    }
  }

  /**
   * Locales the fold does not visit, and locales without an inheritance array, keep the
   * dictionary they had.
   */
  lemma {:induction false} FoldAllOther(c: LocaleConfig, d: Dictionary, locales: seq<string>, locale: string)
    requires InheritsSupported(c) && Covers(c, d)
    requires forall l :: l in locales ==> l in c.supported.locales
    requires locale in d && (locale !in locales || !HasChain(c, locale))
    ensures FoldAll(c, d, locales)[locale] == d[locale]
    decreases |locales|
  {
    if locales != [] {
      var init, last := locales[..|locales| - 1], locales[|locales| - 1];
      assert locales == init + [last];
      FoldAllOther(c, d, init, locale);
      var before := FoldAll(c, d, init);
      if last != locale && HasChain(c, last) {
        ApplyChainOther(before, last, c.meta.inherits[last].value, locale);
      }
    }
  }

  /**
   * Inside the loop over the supported locales: a locale listed once ends the fold with the
   * closed form of its chain over the state the earlier iterations left, so an inherited
   * locale visited earlier contributes its already-folded dictionary, and one visited later
   * its dictionary as loaded.
   */
  lemma FoldAllAt(c: LocaleConfig, d: Dictionary, pre: seq<string>, locale: string, post: seq<string>)
    requires Valid(c) && Covers(c, d)
    requires forall l :: l in pre + [locale] + post ==> l in c.supported.locales
    requires locale !in pre && locale !in post && HasChain(c, locale)
    ensures FoldAll(c, d, pre + [locale] + post)[locale]
            == Inherited(FoldAll(c, d, pre), c.meta.inherits[locale].value, d[locale])
  {
    ValidInheritsSupported(c);
    var chain := c.meta.inherits[locale].value;
    FoldAllConcat(c, d, pre + [locale], post);
    FoldAllConcat(c, d, pre, [locale]);
    var d1 := FoldAll(c, d, pre);
    assert [locale][..0] == [];
    assert FoldAll(c, d1, [locale]) == FoldOne(c, d1, locale);
    FoldAllOther(c, d, pre, locale);
    ApplyChainClosed(d1, locale, chain);
    var d2 := FoldOne(c, d1, locale);
    assert d2[locale] == Inherited(d1, chain, d[locale]);
    FoldAllOther(c, d2, post, locale);
  }

  /**
   * A locale listed once, whose chain names only locales that inherit nothing themselves,
   * ends the fold with the closed form of its chain over the dictionaries it started with.
   */
  lemma FoldAllOnce(c: LocaleConfig, d: Dictionary, pre: seq<string>, locale: string, post: seq<string>)
    requires Valid(c) && Covers(c, d)
    requires forall l :: l in pre + [locale] + post ==> l in c.supported.locales
    requires locale !in pre && locale !in post && HasChain(c, locale)
    requires forall x :: x in c.meta.inherits[locale].value ==> !HasChain(c, x)
    ensures FoldAll(c, d, pre + [locale] + post)[locale]
            == Inherited(d, c.meta.inherits[locale].value, d[locale])
  {
    ValidInheritsSupported(c);
    var chain := c.meta.inherits[locale].value;
    FoldAllAt(c, d, pre, locale, post);
    forall x | x in chain
      ensures x in FoldAll(c, d, pre) && FoldAll(c, d, pre)[x] == d[x]
    {
      FoldAllOther(c, d, pre, x);
    }
    InheritedFrame(FoldAll(c, d, pre), d, chain, d[locale]);
  }

  /** Where every layer of a chain is missing a path, so is the result. */
  lemma {:induction false} InheritedMissing(d: Dictionary, chain: seq<string>, own: Tree, p: seq<string>)
    requires forall x :: x in chain ==> x in d
    requires Walk(Node(own), p).Missing?
    requires forall x :: x in chain ==> Walk(Node(d[x]), p).Missing?
    ensures Walk(Node(Inherited(d, chain, own)), p).Missing?
  {
    if chain != [] {
      InheritedMissing(d, chain[1..], own, p);
      MergeTreesNode(d[chain[0]], Inherited(d, chain[1..], own));
      MergeWalk(Node(d[chain[0]]), Node(Inherited(d, chain[1..], own)), p);
    }
  }

  /** The locale's own strings win over everything it inherits. */
  lemma {:induction false} InheritedOwnWins(d: Dictionary, chain: seq<string>, own: Tree, p: seq<string>, s: string)
    requires forall x :: x in chain ==> x in d
    requires Walk(Node(own), p) == Reached(Leaf(s))
    ensures Walk(Node(Inherited(d, chain, own)), p) == Reached(Leaf(s))
  {
    if chain != [] {
      InheritedOwnWins(d, chain[1..], own, p, s);
      MergeTreesNode(d[chain[0]], Inherited(d, chain[1..], own));
      MergeLeaf(Node(d[chain[0]]), Node(Inherited(d, chain[1..], own)), p, s);
    }
  }

  /**
   * An inherited locale's string shows through when the locale itself and every locale
   * listed after it in the chain lack that path: later entries have priority over earlier ones.
   */
  lemma {:induction false} InheritedLaterWins(d: Dictionary, chain: seq<string>, own: Tree, i: nat, p: seq<string>, s: string)
    requires forall x :: x in chain ==> x in d
    requires i < |chain| && Walk(Node(d[chain[i]]), p) == Reached(Leaf(s))
    requires Walk(Node(own), p).Missing?
    requires forall j :: i < j < |chain| ==> Walk(Node(d[chain[j]]), p).Missing?
    ensures Walk(Node(Inherited(d, chain, own)), p) == Reached(Leaf(s))
  {
    var rest := Inherited(d, chain[1..], own);
    MergeTreesNode(d[chain[0]], rest);
    if i == 0 {
      forall x | x in chain[1..]
        ensures Walk(Node(d[x]), p).Missing?
      {
        var j :| 0 <= j < |chain[1..]| && chain[1..][j] == x;
        assert chain[j + 1] == x;
      }
      InheritedMissing(d, chain[1..], own, p);
      MergeLeaf(Node(d[chain[0]]), Node(rest), p, s);
    } else {
      InheritedLaterWins(d, chain[1..], own, i - 1, p, s);
      MergeLeaf(Node(d[chain[0]]), Node(rest), p, s);
    }
  }

  /** The fold invents no strings: each one comes from the locale or one of its chain. */
  lemma {:induction false} InheritedOrigin(d: Dictionary, chain: seq<string>, own: Tree, p: seq<string>, s: string)
    requires forall x :: x in chain ==> x in d
    requires Walk(Node(Inherited(d, chain, own)), p) == Reached(Leaf(s))
    ensures Walk(Node(own), p) == Reached(Leaf(s)) ||
            exists x :: x in chain && Walk(Node(d[x]), p) == Reached(Leaf(s))
  {
    if chain != [] {
      var rest := Inherited(d, chain[1..], own);
      MergeTreesNode(d[chain[0]], rest);
      MergeLeaf(Node(d[chain[0]]), Node(rest), p, s);
      if Walk(Node(rest), p) == Reached(Leaf(s)) {
        InheritedOrigin(d, chain[1..], own, p, s);
        if Walk(Node(own), p) != Reached(Leaf(s)) {
          var x :| x in chain[1..] && Walk(Node(d[x]), p) == Reached(Leaf(s));
          assert x in chain;
        }
      } else {
        assert chain[0] in chain;
      }
    }
  }

  /**
   * The example of inheritance order: with `inherits[L] = [X, Y]`, where X holds `a` and Y holds
   * `a` and `b`, L ends with Y's strings for both.
   */
  lemma InheritanceOrderExample(x: string, y: string, l: string, a: string, b: string, sx: string, sy: string)
    requires x != y && x != l && y != l && a != b
    ensures var d := map[x := map[a := Leaf(sx)], y := map[a := Leaf(sy), b := Leaf(sy)], l := map[]];
      ApplyChain(d, l, [x, y])[l] == map[a := Leaf(sy), b := Leaf(sy)]
  {
    var d := map[x := map[a := Leaf(sx)], y := map[a := Leaf(sy), b := Leaf(sy)], l := map[]];
    var both := map[a := Leaf(sy), b := Leaf(sy)];
    assert [x, y][1..] == [y] && [y][1..] == [];
    // The reversed walk merges Y under L first, then X under the result.
    assert ApplyChain(d, l, []) == d;
    var d1 := ApplyChain(d, l, [y]);
    MergeTreesEmpty(both);
    assert d1[l] == both && d1[x] == map[a := Leaf(sx)];
    MergeTreesOverLeaves(map[a := Leaf(sx)], both);
  }

  /**
   * The fold reads the current state: when the iteration for K (inheriting from J) runs before
   * the one for L (inheriting from K), L receives J's strings through K's folded dictionary.
   */
  lemma FoldReadsCurrentState(c: LocaleConfig, d: Dictionary, j: string, k: string, l: string)
    requires InheritsSupported(c) && Covers(c, d)
    requires k != l && k in c.supported.locales && l in c.supported.locales
    requires HasChain(c, k) && c.meta.inherits[k].value == [j]
    requires HasChain(c, l) && c.meta.inherits[l].value == [k]
    ensures j in d
    ensures FoldOne(c, FoldOne(c, d, k), l)[l] == MergeTrees(MergeTrees(d[j], d[k]), d[l])
  {
    FoldOneSingle(c, d, k, j);
    var d2 := d[k := MergeTrees(d[j], d[k])];
    FoldOneSingle(c, d2, l, k);
  }

  /** The fold over `locales` and then `locale` is one more iteration after the fold over `locales`. */
  lemma FoldAllSnoc(c: LocaleConfig, d: Dictionary, locales: seq<string>, locale: string)
    requires InheritsSupported(c) && Covers(c, d)
    requires forall l :: l in locales + [locale] ==> l in c.supported.locales
    ensures FoldAll(c, d, locales + [locale]) == FoldOne(c, FoldAll(c, d, locales), locale)
  {
    assert (locales + [locale])[..|locales|] == locales;
  }

  /** An iteration for a locale whose chain is one locale merges that locale's current dictionary under it. */
  lemma FoldOneSingle(c: LocaleConfig, d: Dictionary, locale: string, inherited: string)
    requires InheritsSupported(c) && Covers(c, d) && locale in d
    requires HasChain(c, locale) && c.meta.inherits[locale].value == [inherited]
    ensures inherited in d
    ensures FoldOne(c, d, locale) == d[locale := MergeTrees(d[inherited], d[locale])]
  {
    assert inherited in c.meta.inherits[locale].value;
    ApplyChainSingle(d, locale, inherited);
  }

  /** A chain of one locale merges that locale's dictionary under the inheriting one. */
  lemma ApplyChainSingle(d: Dictionary, locale: string, inherited: string)
    requires locale in d && inherited in d
    ensures ApplyChain(d, locale, [inherited]) == d[locale := MergeTrees(d[inherited], d[locale])]
  {
    assert [inherited][1..] == [];
  }

  // ---------------------------------------------------------------------------------
  // Stage 3: the global overlay
  // ---------------------------------------------------------------------------------

  /** After the global loop: each listed locale's dictionary laid over the global one. */
  function Overlay(g: Tree, d: Dictionary, locales: seq<string>): (r: Dictionary)
    ensures r.Keys == d.Keys
    ensures forall l :: l in d && l in locales ==> r[l] == MergeTrees(g, d[l])
  {
    map l | l in d :: if l in locales then MergeTrees(g, d[l]) else d[l]
  }

  /** One more locale in the global loop; a locale listed twice gets the global layer once. */
  lemma OverlayStep(g: Tree, d0: Dictionary, locales: seq<string>, l: string)
    requires l in d0
    ensures Overlay(g, d0, locales + [l])
            == Overlay(g, d0, locales)[l := MergeTrees(g, Overlay(g, d0, locales)[l])]
  {
    if l in locales {
      MergeTreesAbsorb(g, d0[l]);
    }
    var a := Overlay(g, d0, locales + [l]);
    var b := Overlay(g, d0, locales)[l := MergeTrees(g, Overlay(g, d0, locales)[l])];
    forall k | k in a
      ensures k in b && a[k] == b[k]
    {
      assert k in locales + [l] <==> k in locales || k == l;
    }
  }

  /** The final loop over supported locales. */
  method OverlayGlobal(g: Tree, d0: Dictionary, locales: seq<string>) returns (d: Dictionary)
    requires forall l :: l in locales ==> l in d0
    ensures d == Overlay(g, d0, locales)
  {
    d := d0;
    for i := 0 to |locales|
      invariant d == Overlay(g, d0, locales[..i])
    {
      var l := locales[i];
      OverlayStep(g, d0, locales[..i], l);
      d := d[l := MergeTrees(g, d[l])];
      assert locales[..i + 1] == locales[..i] + [l];
    }
    assert locales[..|locales|] == locales;
  }

  // ---------------------------------------------------------------------------------
  // The whole compiler
  // ---------------------------------------------------------------------------------

  /** The dictionary after the inheritance fold. */
  function Folded(c: LocaleConfig, files: Files): (d: Dictionary)
    requires InheritsSupported(c)
    ensures d.Keys == DirectLoad(c, files).Keys
  {
    FoldAll(c, DirectLoad(c, files), c.supported.locales)
  }

  /** The compiled dictionary. */
  function Compiled(c: LocaleConfig, files: Files): Dictionary
    requires InheritsSupported(c)
  {
    Overlay(GlobalFragments(c, files), Folded(c, files), c.supported.locales)
  }

  /** Every failed fragment load, in the order the compiler reports it. */
  function CompileFailures(c: LocaleConfig, files: Files): seq<string>
  {
    DirectFailures(c, files, c.supported.locales)
      + FragmentFailures(files, c.other.dictionaryPath, GlobalDirName, c.supported.globalNamespaces)
  }

  /**
   * `compileDictionary`. In a browser it loads nothing and returns `undefined`; elsewhere it
   * returns the compiled dictionary and reports each fragment that failed to load.
   */
  method CompileDictionary(c: LocaleConfig, files: Files, inBrowser: bool)
    returns (r: Option<Dictionary>, failed: seq<string>)
    requires InheritsSupported(c)
    ensures inBrowser ==> r == None && failed == []
    ensures !inBrowser ==> r == Some(Compiled(c, files)) && failed == CompileFailures(c, files)
  {
    if inBrowser {
      return None, [];
    }
    var d, f := LoadLocales(c, files);
    d := FoldInheritance(c, d);
    var g, gf := LoadFragments(files, c.other.dictionaryPath, GlobalDirName, c.supported.globalNamespaces);
    d := OverlayGlobal(g, d, c.supported.locales);
    r, failed := Some(d), f + gf;
  }

  /** Every supported locale has an entry, even one whose every fragment failed; no other does. */
  lemma CompiledLocales(c: LocaleConfig, files: Files)
    requires InheritsSupported(c)
    ensures forall l :: l in Compiled(c, files) <==> l in c.supported.locales
  {
  }

  /**
   * Global content is the lowest layer: under every locale, the locale's folded strings win,
   * and a global string appears wherever the locale has nothing on its path.
   */
  lemma CompiledOverGlobal(c: LocaleConfig, files: Files, locale: string, p: seq<string>, s: string)
    requires InheritsSupported(c) && locale in c.supported.locales
    ensures Walk(Node(Compiled(c, files)[locale]), p) == Reached(Leaf(s)) <==>
      (Walk(Node(Folded(c, files)[locale]), p) == Reached(Leaf(s)) ||
       (Walk(Node(Folded(c, files)[locale]), p).Missing? && Walk(Node(GlobalFragments(c, files)), p) == Reached(Leaf(s))))
  {
    MergeTreesLeaf(GlobalFragments(c, files), Folded(c, files)[locale], p, s);
  }

  /** A locale without an inheritance array ends as its own fragments over the global ones. */
  lemma CompiledStandalone(c: LocaleConfig, files: Files, locale: string)
    requires InheritsSupported(c) && locale in c.supported.locales && !HasChain(c, locale)
    ensures Compiled(c, files)[locale] == MergeTrees(GlobalFragments(c, files), LocaleFragments(c, files, locale))
  {
    FoldAllOther(c, DirectLoad(c, files), c.supported.locales, locale);
  }

  /**
   * A locale listed once ends as: global, under its chain's first entry, ..., under its last
   * entry, under its own fragments, where each entry's dictionary is the one the fold had left
   * when the loop reached the locale.
   */
  lemma CompiledInherits(c: LocaleConfig, files: Files, pre: seq<string>, locale: string, post: seq<string>)
    requires Valid(c) && c.supported.locales == pre + [locale] + post
    requires locale !in pre && locale !in post && HasChain(c, locale)
    ensures InheritsSupported(c)
    ensures Compiled(c, files)[locale] == MergeTrees(GlobalFragments(c, files),
      Inherited(FoldAll(c, DirectLoad(c, files), pre), c.meta.inherits[locale].value, LocaleFragments(c, files, locale)))
  {
    ValidInheritsSupported(c);
    FoldAllAt(c, DirectLoad(c, files), pre, locale, post);
  }

  /** The same, when the chain's locales inherit nothing: their dictionaries as loaded. */
  lemma CompiledInheritsDirect(c: LocaleConfig, files: Files, pre: seq<string>, locale: string, post: seq<string>)
    requires Valid(c) && c.supported.locales == pre + [locale] + post
    requires locale !in pre && locale !in post && HasChain(c, locale)
    requires forall x :: x in c.meta.inherits[locale].value ==> !HasChain(c, x)
    ensures InheritsSupported(c)
    ensures Compiled(c, files)[locale] == MergeTrees(GlobalFragments(c, files),
      Inherited(DirectLoad(c, files), c.meta.inherits[locale].value, LocaleFragments(c, files, locale)))
  {
    ValidInheritsSupported(c);
    FoldAllOnce(c, DirectLoad(c, files), pre, locale, post);
  }
}
